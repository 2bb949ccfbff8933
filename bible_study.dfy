/**
 * The reading position of client/src/pages/bible-study.tsx: the selected
 * book and chapter, restored from and written back to browser storage, and
 * the previous-chapter and next-chapter handlers that walk the ordered book
 * list across book boundaries.
 */
module BibleStudy {
  import opened JsBuiltins

  /** The fields of a book record the navigation reads. */
  datatype Book = Book(name: string, chapters: int)

  /**
   * A chapter number as the page holds it: an integer, or NaN when the saved
   * chapter was text that parseInt does not read.
   */
  datatype Chapter = Num(n: int) | NaN

  /** The reading position: the selected book's name and the selected chapter. */
  datatype Position = Position(book: string, chapter: Chapter)

  const BOOK_KEY: string := "selectedBook"
  const CHAPTER_KEY: string := "selectedChapter"
  const DEFAULT_BOOK: string := "Genesis"

  /** `books.findIndex(book => book.name === name)`. */
  function FindIndex(books: seq<Book>, name: string): (i: int)
    ensures -1 <= i < |books|
    ensures i == -1 <==> forall j :: 0 <= j < |books| ==> books[j].name != name
    ensures 0 <= i ==> books[i].name == name && forall j :: 0 <= j < i ==> books[j].name != name
  {
    if books == [] then -1
    else if books[0].name == name then 0
    else
      var j := FindIndex(books[1..], name);
      assert forall k :: 0 < k < |books| ==> books[k] == books[1..][k - 1];
      if j == -1 then -1 else j + 1
  }

  // ---------------------------------------------------------------------
  // The two handlers, as functions of the book list and the position

  /** What handlePreviousChapter makes of position `p`. */
  function PreviousPosition(books: seq<Book>, p: Position): Position {
    if p.chapter.Num? && p.chapter.n > 1 then Position(p.book, Num(p.chapter.n - 1))
    else
      var i := FindIndex(books, p.book);
      if i > 0 then Position(books[i - 1].name, Num(books[i - 1].chapters)) else p
  }

  /** What handleNextChapter makes of position `p`. */
  function NextPosition(books: seq<Book>, p: Position): Position {
    var i := FindIndex(books, p.book);
    if i >= 0 && p.chapter.Num? && p.chapter.n < books[i].chapters then Position(p.book, Num(p.chapter.n + 1))
    else if i < |books| - 1 then Position(books[i + 1].name, Num(1))
    else p
  }

  /** `books[i]` is the first book in the list called `name`: the one findIndex and find pick. */
  predicate FirstNamed(books: seq<Book>, i: int, name: string) {
    && 0 <= i < |books| && books[i].name == name
    && forall j :: 0 <= j < i ==> books[j].name != name
  }

  predicate Absent(books: seq<Book>, name: string) {
    forall j :: 0 <= j < |books| ==> books[j].name != name
  }

  /** The chapter is a number greater than 1; a NaN chapter compares false. */
  predicate AfterFirstChapter(c: Chapter) {
    c.Num? && c.n > 1
  }

  /** The chapter is a number below `count`; a NaN chapter compares false. */
  predicate Below(c: Chapter, count: int) {
    c.Num? && c.n < count
  }

  lemma FindIndexOfFirst(books: seq<Book>, i: int, name: string)
    requires FirstNamed(books, i, name)
    ensures FindIndex(books, name) == i
  {
    var k := FindIndex(books, name);
    assert k != -1 by {
      assert books[i].name == name;
    }
  }

  /** Previous-chapter above chapter 1 steps back one chapter in the same book, whatever the list. */
  lemma PreviousStepsBack(books: seq<Book>, p: Position)
    requires AfterFirstChapter(p.chapter)
    ensures PreviousPosition(books, p) == Position(p.book, Num(p.chapter.n - 1))
  {
  }

  /** Previous-chapter at the first chapter moves to the last chapter of the book before. */
  lemma PreviousCrossesBook(books: seq<Book>, p: Position, i: int)
    requires !AfterFirstChapter(p.chapter)
    requires FirstNamed(books, i, p.book) && i > 0
    ensures PreviousPosition(books, p) == Position(books[i - 1].name, Num(books[i - 1].chapters))
  {
    FindIndexOfFirst(books, i, p.book);
  }

  /** Previous-chapter at the first chapter of the first book, or of a book not in the list, does nothing. */
  lemma PreviousStopsAtStart(books: seq<Book>, p: Position)
    requires !AfterFirstChapter(p.chapter)
    requires FirstNamed(books, 0, p.book) || Absent(books, p.book)
    ensures PreviousPosition(books, p) == p
  {
    if FirstNamed(books, 0, p.book) {
      FindIndexOfFirst(books, 0, p.book);
    }
  }

  /** Next-chapter below the book's chapter count steps forward one chapter in the same book. */
  lemma NextStepsForward(books: seq<Book>, p: Position, i: int)
    requires FirstNamed(books, i, p.book) && Below(p.chapter, books[i].chapters)
    ensures NextPosition(books, p) == Position(p.book, Num(p.chapter.n + 1))
  {
    FindIndexOfFirst(books, i, p.book);
  }

  /** Next-chapter at or past the book's last chapter moves to chapter 1 of the next book. */
  lemma NextCrossesBook(books: seq<Book>, p: Position, i: int)
    requires FirstNamed(books, i, p.book) && !Below(p.chapter, books[i].chapters)
    requires i < |books| - 1
    ensures NextPosition(books, p) == Position(books[i + 1].name, Num(1))
  {
    FindIndexOfFirst(books, i, p.book);
  }

  /** Next-chapter at or past the last chapter of the last book does nothing. */
  lemma NextStopsAtEnd(books: seq<Book>, p: Position)
    requires |books| > 0 && FirstNamed(books, |books| - 1, p.book)
    requires !Below(p.chapter, books[|books| - 1].chapters)
    ensures NextPosition(books, p) == p
  {
    FindIndexOfFirst(books, |books| - 1, p.book);
  }

  /**
   * Next-chapter from a book that is not in the list goes to chapter 1 of the
   * first book (findIndex gives -1, which is below the last index); only an
   * empty list leaves the position alone.
   */
  lemma NextFromUnknownBook(books: seq<Book>, p: Position)
    requires Absent(books, p.book)
    ensures NextPosition(books, p) == if books == [] then p else Position(books[0].name, Num(1))
  {
  }

  // ---------------------------------------------------------------------
  // Valid positions: the two handlers undo each other

  predicate DistinctNames(books: seq<Book>) {
    forall i, j :: 0 <= i < j < |books| ==> books[i].name != books[j].name
  }

  /** Book names are distinct, every book has a chapter, and the position is a chapter of a listed book. */
  predicate ValidPosition(books: seq<Book>, p: Position) {
    && DistinctNames(books)
    && (forall i :: 0 <= i < |books| ==> books[i].chapters >= 1)
    && p.chapter.Num?
    && exists i :: 0 <= i < |books| && books[i].name == p.book && 1 <= p.chapter.n <= books[i].chapters
  }

  lemma DistinctFirst(books: seq<Book>, i: int)
    requires DistinctNames(books) && 0 <= i < |books|
    ensures FirstNamed(books, i, books[i].name)
  {
  }

  /** The index of a valid position's book. */
  lemma IndexOfValid(books: seq<Book>, p: Position) returns (i: int)
    requires ValidPosition(books, p)
    ensures FirstNamed(books, i, p.book) && FindIndex(books, p.book) == i
    ensures 1 <= p.chapter.n <= books[i].chapters
  {
    i :| 0 <= i < |books| && books[i].name == p.book && 1 <= p.chapter.n <= books[i].chapters;
    DistinctFirst(books, i);
    FindIndexOfFirst(books, i, p.book);
  }

  /** Both handlers keep a valid position valid. */
  lemma NavigationKeepsValid(books: seq<Book>, p: Position)
    requires ValidPosition(books, p)
    ensures ValidPosition(books, PreviousPosition(books, p))
    ensures ValidPosition(books, NextPosition(books, p))
  {
    var i := IndexOfValid(books, p);
  }

  /** From a valid position, next-chapter undoes every previous-chapter that moved. */
  lemma NextUndoesPrevious(books: seq<Book>, p: Position)
    requires ValidPosition(books, p)
    requires PreviousPosition(books, p) != p
    ensures NextPosition(books, PreviousPosition(books, p)) == p
  {
    var i := IndexOfValid(books, p);
    if !AfterFirstChapter(p.chapter) {
      DistinctFirst(books, i - 1);
      NextCrossesBook(books, PreviousPosition(books, p), i - 1);
    } else {
      NextStepsForward(books, PreviousPosition(books, p), i);
    }
  }

  /** From a valid position, previous-chapter undoes every next-chapter that moved. */
  lemma PreviousUndoesNext(books: seq<Book>, p: Position)
    requires ValidPosition(books, p)
    requires NextPosition(books, p) != p
    ensures PreviousPosition(books, NextPosition(books, p)) == p
  {
    var i := IndexOfValid(books, p);
    if !Below(p.chapter, books[i].chapters) {
      DistinctFirst(books, i + 1);
      PreviousCrossesBook(books, NextPosition(books, p), i + 1);
    }
  }

  /** Genesis has 50 chapters and Exodus 40: the handlers cross between them. */
  lemma GenesisExodus(books: seq<Book>)
    requires books == [Book("Genesis", 50), Book("Exodus", 40)]
    ensures PreviousPosition(books, Position("Exodus", Num(1))) == Position("Genesis", Num(50))
    ensures NextPosition(books, Position("Genesis", Num(50))) == Position("Exodus", Num(1))
    ensures NextPosition(books, Position("Exodus", Num(40))) == Position("Exodus", Num(40))
    ensures PreviousPosition(books, Position("Genesis", Num(1))) == Position("Genesis", Num(1))
  {
    PreviousCrossesBook(books, Position("Exodus", Num(1)), 1);
    NextCrossesBook(books, Position("Genesis", Num(50)), 0);
    NextStopsAtEnd(books, Position("Exodus", Num(40)));
    PreviousStopsAtStart(books, Position("Genesis", Num(1)));
  }

  // ---------------------------------------------------------------------
  // Storage: the position is restored on load and written back on change

  /** The chapter the page holds after `parseInt`: NaN when nothing was read. */
  function ChapterOf(r: Option<int>): Chapter {
    if r.Some? then Num(r.value) else NaN
  }

  /** `selectedChapter.toString()`. */
  function ChapterText(c: Chapter): string {
    if c.Num? then IntToString(c.n) else "NaN"
  }

  /**
   * The initial state: the saved book unless it is missing or empty, then
   * Genesis; the saved chapter read with parseInt unless it is missing or
   * empty, then 1.
   */
  function InitialPosition(storage: map<string, string>): Position {
    var book := if BOOK_KEY in storage && storage[BOOK_KEY] != "" then storage[BOOK_KEY] else DEFAULT_BOOK;
    var chapter := if CHAPTER_KEY in storage && storage[CHAPTER_KEY] != "" then ChapterOf(ParseInt(storage[CHAPTER_KEY])) else Num(1);
    Position(book, chapter)
  }

  /** The storage after the write-back effect has saved position `p`. */
  function Saved(storage: map<string, string>, p: Position): map<string, string> {
    storage[BOOK_KEY := p.book][CHAPTER_KEY := ChapterText(p.chapter)]
  }

  /** The storage holds position `p`. */
  predicate Holds(storage: map<string, string>, p: Position) {
    && BOOK_KEY in storage && storage[BOOK_KEY] == p.book
    && CHAPTER_KEY in storage && storage[CHAPTER_KEY] == ChapterText(p.chapter)
  }

  /** With nothing saved, reading starts at Genesis 1. */
  lemma StartsAtGenesis1(storage: map<string, string>)
    requires BOOK_KEY !in storage && CHAPTER_KEY !in storage
    ensures InitialPosition(storage) == Position("Genesis", Num(1))
  {
  }

  /** The chapter text parseInt reads back: an integer's digits, or "NaN". */
  lemma ChapterTextRoundTrip(c: Chapter)
    ensures ChapterText(c) != "" && ChapterOf(ParseInt(ChapterText(c))) == c
  {
    if c.Num? {
      ParseIntOfIntToString(c.n);
    } else {
      ParseIntNaN([], Unsigned, "NaN");
      assert [] + (Unsigned.Text() + "NaN") == "NaN";
    }
  }

  /**
   * Reloading the page after a write-back restores the position, as long as
   * the book name is not empty (an empty saved name reads as Genesis).
   */
  lemma RestartRestoresPosition(storage: map<string, string>, p: Position)
    requires p.book != ""
    ensures Holds(Saved(storage, p), p)
    ensures InitialPosition(Saved(storage, p)) == p
  {
    ChapterTextRoundTrip(p.chapter);
  }

  /** Writing back a position the storage already holds changes nothing. */
  lemma SavedIdempotent(storage: map<string, string>, p: Position)
    requires Holds(storage, p)
    ensures Saved(storage, p) == storage
  {
  }

  /** The page's state: the selected position and the browser storage it is saved to. */
  class BibleStudyPage {
    var selectedBook: string
    var selectedChapter: Chapter
    var storage: map<string, string>

    function Current(): Position
      reads this
    {
      Position(selectedBook, selectedChapter)
    }

    /** The storage holds the selected position, as the write-back effect leaves it. */
    predicate Valid()
      reads this
    {
      Holds(storage, Current())
    }

    /** The first render: restore the position, then run the write-back effect once. */
    constructor(saved: map<string, string>)
      ensures Current() == InitialPosition(saved)
      ensures storage == Saved(saved, Current())
      ensures Valid()
    {
      selectedBook := if BOOK_KEY in saved && saved[BOOK_KEY] != "" then saved[BOOK_KEY] else DEFAULT_BOOK;
      var chapterText := if CHAPTER_KEY in saved then saved[CHAPTER_KEY] else "";
      selectedChapter := if chapterText != "" then ChapterOf(ParseInt(chapterText)) else Num(1);
      storage := saved;
      new;
      WriteBack();
    }

    /** The effect: save the selected book and `selectedChapter.toString()`. */
    method WriteBack()
      modifies this
      ensures Current() == old(Current())
      ensures storage == Saved(old(storage), Current())
      ensures Valid()
    {
      storage := storage[BOOK_KEY := selectedBook];
      storage := storage[CHAPTER_KEY := ChapterText(selectedChapter)];
    }

    /** handlePreviousChapter, followed by the effect when the position changed. */
    method HandlePreviousChapter(books: seq<Book>)
      requires Valid()
      modifies this
      ensures Current() == PreviousPosition(books, old(Current()))
      ensures storage == Saved(old(storage), Current())
      ensures Valid()
    {
      var before := Current();
      if selectedChapter.Num? && selectedChapter.n > 1 {
        selectedChapter := Num(selectedChapter.n - 1);
      } else {
        var currentBookIndex := FindIndex(books, selectedBook);
        if currentBookIndex > 0 {
          var previousBook := books[currentBookIndex - 1];
          selectedBook := previousBook.name;
          selectedChapter := Num(previousBook.chapters);
        }
      }
      if Current() != before {
        WriteBack();
      } else {
        SavedIdempotent(storage, before);
      }
    }

    /** handleNextChapter, followed by the effect when the position changed. */
    method HandleNextChapter(books: seq<Book>)
      requires Valid()
      modifies this
      ensures Current() == NextPosition(books, old(Current()))
      ensures storage == Saved(old(storage), Current())
      ensures Valid()
    {
      var before := Current();
      var currentBookIndex := FindIndex(books, selectedBook);
      if currentBookIndex >= 0 && selectedChapter.Num? && selectedChapter.n < books[currentBookIndex].chapters {
        selectedChapter := Num(selectedChapter.n + 1);
      } else if currentBookIndex < |books| - 1 {
        var nextBook := books[currentBookIndex + 1];
        selectedBook := nextBook.name;
        selectedChapter := Num(1);
      }
      if Current() != before {
        WriteBack();
      } else {
        SavedIdempotent(storage, before);
      }
    }
  }
}
