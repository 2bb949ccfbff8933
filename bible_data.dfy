/**
 * The verse-reference parser and printer, the verse-id codec and the
 * highlight palette of client/src/lib/bible-data.ts.
 */
module BibleData {
  import opened JsBuiltins

  /** The closed highlight palette, HIGHLIGHT_COLORS. */
  datatype HighlightColor = Yellow | Blue | Red | Green {
    /** The key the palette is indexed by; highlights store this string. */
    function Key(): string {
      match this
      case Yellow => "yellow"
      case Blue => "blue"
      case Red => "red"
      case Green => "green"
    }

    /** The background class the palette assigns to the colour. */
    function ClassName(): string {
      match this
      case Yellow => "bg-highlight-yellow"
      case Blue => "bg-highlight-blue"
      case Red => "bg-highlight-red"
      case Green => "bg-highlight-green"
    }
  }

  const DEFAULT_HIGHLIGHT_COLOR: HighlightColor := Yellow

  /** A verse record as the verse store serves it. */
  datatype Verse = Verse(id: int, book: string, chapter: int, verse: int, text: string)

  /** The `{book, chapter, verse}` object both parsers return. */
  datatype Reference = Reference(book: string, chapter: int, verse: int)

  // ---------------------------------------------------------------------
  // VERSE_REFERENCE_REGEX = /^([1-3]?\s*[A-Za-z]+)\s+(\d+):(\d+)$/

  predicate IsNumeral(c: char) {
    '1' <= c <= '3'
  }

  /**
   * One way of cutting a string along the pattern's pieces, by the index
   * where each piece ends: the optional numeral `t[..numeral]`, the
   * whitespace `t[numeral..gap]`, the letters `t[gap..name]`, the whitespace
   * `t[name..sep]`, the chapter digits `t[sep..colon]`, the ':' at `colon`
   * and the verse digits after it.
   */
  datatype Cuts = Cuts(numeral: nat, gap: nat, name: nat, sep: nat, colon: nat) {

    /** The whole of `t` is matched by the pattern, with these pieces. */
    predicate Fits(t: string) {
      && numeral <= 1 && numeral <= gap < name < sep < colon && colon + 1 < |t|
      && (numeral == 1 ==> IsNumeral(t[0]))
      && AllInRange(t, numeral, gap, Space)
      && AllInRange(t, gap, name, Letter)
      && AllInRange(t, name, sep, Space)
      && AllInRange(t, sep, colon, Digit)
      && t[colon] == ':'
      && AllInRange(t, colon + 1, |t|, Digit)
    }
  }

  /**
   * The pattern as a left-to-right scanner. The pieces' character classes
   * do not overlap, so each greedy step is the only one that can lead to a
   * match, and no backtracking is needed.
   */
  function ScanReference(t: string): (r: Option<Cuts>)
    ensures r.Some? ==> r.value.Fits(t)
  {
    var numeral := if |t| > 0 && IsNumeral(t[0]) then 1 else 0;
    var gap := RunFrom(t, numeral, Space);
    var name := RunFrom(t, gap, Letter);
    var sep := RunFrom(t, name, Space);
    var colon := RunFrom(t, sep, Digit);
    if gap < name < sep < colon && colon + 1 < |t| && t[colon] == ':' && RunFrom(t, colon + 1, Digit) == |t|
    then Some(Cuts(numeral, gap, name, sep, colon))
    else None
  }

  /** The reference the capture groups of a match denote, the book group trimmed. */
  function Captured(t: string, m: Cuts): Reference
    requires m.Fits(t)
  {
    Reference(Trim(t[..m.name]), DigitsValue(t[m.sep..m.colon]), DigitsValue(t[m.colon + 1..]))
  }

  /** parseVerseReference: None when the trimmed text is not a reference. */
  function ParseVerseReference(reference: string): (r: Option<Reference>)
  {
    var t := Trim(reference);
    match ScanReference(t)
    case None => None
    case Some(m) => Some(Captured(t, m))
  }

  /** formatVerseReference: `${book} ${chapter}:${verse}`. */
  function FormatVerseReference(book: string, chapter: int, verse: int): string {
    book + " " + IntToString(chapter) + ":" + IntToString(verse)
  }

  /** Whatever matches the pattern, the scanner finds, with the same pieces. */
  lemma ScanComplete(t: string, m: Cuts)
    requires m.Fits(t)
    ensures ScanReference(t) == Some(m)
  {
    if m.numeral == 0 {
      if m.gap == 0 {
        assert IsLetter(t[0]);
      } else {
        assert IsSpace(t[0]);
      }
    }
    RunFromExact(t, m.numeral, m.gap, Space);
    RunFromExact(t, m.gap, m.name, Letter);
    RunFromExact(t, m.name, m.sep, Space);
    RunFromExact(t, m.sep, m.colon, Digit);
    RunFromExact(t, m.colon + 1, |t|, Digit);
  }

  /** Trim leaves a string alone that starts and ends with something other than whitespace. */
  lemma TrimmedAlready(s: string)
    requires |s| > 0 && !IsSpace(s[0]) && !IsSpace(s[|s| - 1])
    ensures Trim(s) == s
  {
    TrimPadded([], s, []);
    assert [] + s + [] == s;
  }

  /** The book group of a match inside a trimmed string has nothing for trim to remove. */
  lemma BookGroupIsTrimmed(t: string, m: Cuts)
    requires m.Fits(t)
    requires !IsSpace(t[0])
    ensures Trim(t[..m.name]) == t[..m.name]
    ensures IsNumeral(t[0]) || IsLetter(t[0])
    ensures IsLetter(t[m.name - 1])
  {
    assert IsLetter(t[m.name - 1]);
    TrimmedAlready(t[..m.name]);
  }

  /** parseVerseReference succeeds on every text whose trimmed form the pattern matches. */
  lemma ParseComplete(s: string, m: Cuts)
    requires m.Fits(Trim(s))
    ensures ParseVerseReference(s) == Some(Captured(Trim(s), m))
  {
    ScanComplete(Trim(s), m);
  }

  /**
   * The two number groups hold digits only, so `parseInt(group, 10)` reads
   * each group whole: the numbers of the captured reference are the values
   * parseInt gives.
   */
  lemma CapturedNumbersAreParseInt(t: string, m: Cuts)
    requires m.Fits(t)
    ensures ParseInt(t[m.sep..m.colon]) == Some(Captured(t, m).chapter)
    ensures ParseInt(t[m.colon + 1..]) == Some(Captured(t, m).verse)
  {
    ParseIntOfDigits(t[m.sep..m.colon]);
    ParseIntOfDigits(t[m.colon + 1..]);
  }

  /**
   * parseVerseReference succeeds only on texts whose trimmed form the
   * pattern matches, and then returns the capture groups.
   */
  lemma ParseSound(s: string)
    ensures ParseVerseReference(s).Some? ==>
      exists m: Cuts :: m.Fits(Trim(s)) && ParseVerseReference(s).value == Captured(Trim(s), m)
  {
    var scan := ScanReference(Trim(s));
    if scan.Some? {
      ParseComplete(s, scan.value);
    }
  }

  /**
   * On success the book is the untrimmed book group: non-empty, starting
   * with 1-3 or a letter and ending with a letter; chapter and verse are the
   * values of non-empty digit runs.
   */
  lemma ParsedReference(s: string)
    ensures ParseVerseReference(s).Some? ==>
      var r := ParseVerseReference(s).value;
      && |r.book| > 0
      && (IsNumeral(r.book[0]) || IsLetter(r.book[0]))
      && IsLetter(r.book[|r.book| - 1])
      && r.chapter >= 0 && r.verse >= 0
  {
    var t := Trim(s);
    var scan := ScanReference(t);
    if scan.Some? {
      BookGroupIsTrimmed(t, scan.value);
    }
  }

  /** Without a ':' or a final digit after trimming, the text is not a reference. */
  lemma ParseNeedsColonAndFinalDigit(s: string)
    ensures ParseVerseReference(s).Some? ==> ':' in Trim(s) && IsDigit(Trim(s)[|Trim(s)| - 1])
  {
    var t := Trim(s);
    var scan := ScanReference(t);
    if scan.Some? {
      assert t[scan.value.colon] == ':';
    }
  }

  /** Whitespace around the text does not change the result: the text is trimmed first. */
  lemma ParseIgnoresPadding(u: string, s: string, v: string)
    requires AllIn(u, Space) && AllIn(v, Space)
    ensures ParseVerseReference(u + s + v) == ParseVerseReference(s)
  {
    TrimIgnoresPadding(u, s, v);
  }

  /** The cuts of a printed reference whose book is a numeral, whitespace and letters. */
  lemma PrintedCuts(numeral: string, gap: string, name: string, digitsC: string, digitsV: string) returns (m: Cuts)
    requires numeral == [] || (|numeral| == 1 && IsNumeral(numeral[0]))
    requires AllIn(gap, Space)
    requires |name| > 0 && AllIn(name, Letter)
    requires |digitsC| > 0 && AllIn(digitsC, Digit)
    requires |digitsV| > 0 && AllIn(digitsV, Digit)
    ensures var s := numeral + gap + name + " " + digitsC + ":" + digitsV;
      && m.Fits(s)
      && s[..m.name] == numeral + gap + name
      && s[m.sep..m.colon] == digitsC
      && s[m.colon + 1..] == digitsV
  {
    var book := numeral + gap + name;
    var head := book + " " + digitsC;
    var s := head + ":" + digitsV;
    m := Cuts(|numeral|, |numeral| + |gap|, |book|, |book| + 1, |head|);
    forall i | m.numeral <= i < m.gap ensures IsSpace(s[i]) {
      assert s[i] == gap[i - |numeral|];
    }
    forall i | m.gap <= i < m.name ensures IsLetter(s[i]) {
      assert s[i] == name[i - |numeral| - |gap|];
    }
    forall i | m.sep <= i < m.colon ensures IsDigit(s[i]) {
      assert s[i] == digitsC[i - |book| - 1];
    }
    forall i | m.colon + 1 <= i < |s| ensures IsDigit(s[i]) {
      assert s[i] == digitsV[i - |head| - 1];
    }
    assert s[m.name] == ' ' && s[m.colon] == ':';
    assert numeral != [] ==> s[0] == numeral[0];
    assert s[..m.name] == book;
    assert s[m.sep..m.colon] == digitsC by {
      assert s[..|head|] == head;
      assert head[|book| + 1..] == digitsC;
      assert s[m.sep..m.colon] == s[..|head|][|book| + 1..];
    }
    assert s[m.colon + 1..] == digitsV;
  }

  /** The printed reference has no whitespace to trim. */
  lemma PrintedTrimmed(numeral: string, gap: string, name: string, digitsC: string, digitsV: string)
    requires numeral == [] ==> gap == []
    requires |name| > 0 && AllIn(name, Letter)
    requires numeral == [] || (|numeral| == 1 && IsNumeral(numeral[0]))
    requires |digitsV| > 0 && AllIn(digitsV, Digit)
    ensures var s := numeral + gap + name + " " + digitsC + ":" + digitsV;
      Trim(s) == s
  {
    var s := numeral + gap + name + " " + digitsC + ":" + digitsV;
    assert s[0] == if numeral == [] then name[0] else numeral[0];
    assert s[|s| - 1] == digitsV[|digitsV| - 1];
    TrimmedAlready(s);
  }

  /**
   * Printing a reference whose book is a single word, optionally preceded by
   * 1-3 and whitespace, and parsing it back gives the reference.
   */
  lemma FormatRoundTrip(numeral: string, gap: string, name: string, chapter: nat, verse: nat)
    requires numeral == [] || (|numeral| == 1 && IsNumeral(numeral[0]))
    requires numeral == [] ==> gap == []
    requires AllIn(gap, Space)
    requires |name| > 0 && AllIn(name, Letter)
    ensures ParseVerseReference(FormatVerseReference(numeral + gap + name, chapter, verse))
         == Some(Reference(numeral + gap + name, chapter, verse))
  {
    var book := numeral + gap + name;
    var digitsC, digitsV := NatToString(chapter), NatToString(verse);
    var s := FormatVerseReference(book, chapter, verse);
    assert s == numeral + gap + name + " " + digitsC + ":" + digitsV;
    var m := PrintedCuts(numeral, gap, name, digitsC, digitsV);
    PrintedTrimmed(numeral, gap, name, digitsC, digitsV);
    ParseComplete(s, m);
    BookGroupIsTrimmed(s, m);
  }

  lemma ParseJohn316()
    ensures ParseVerseReference("John 3:16") == Some(Reference("John", 3, 16))
  {
    assert [] + [] + "John" == "John";
    assert FormatVerseReference("John", 3, 16) == "John 3:16";
    FormatRoundTrip([], [], "John", 3, 16);
  }

  /** A numbered book, with or without whitespace after the numeral. */
  lemma ParseFirstCorinthians134()
    ensures ParseVerseReference("1 Corinthians 13:4") == Some(Reference("1 Corinthians", 13, 4))
    ensures ParseVerseReference("1Corinthians 13:4") == Some(Reference("1Corinthians", 13, 4))
  {
    assert "1" + " " + "Corinthians" == "1 Corinthians";
    assert FormatVerseReference("1 Corinthians", 13, 4) == "1 Corinthians 13:4";
    assert "1" + [] + "Corinthians" == "1Corinthians";
    assert FormatVerseReference("1Corinthians", 13, 4) == "1Corinthians 13:4";
    FormatRoundTrip("1", " ", "Corinthians", 13, 4);
    FormatRoundTrip("1", [], "Corinthians", 13, 4);
  }

  /** Texts the pattern rejects: no verse, a trailing letter, no reference at all. */
  lemma ParseRejects()
    ensures ParseVerseReference("love") == None
    ensures ParseVerseReference("Psalm 23") == None
    ensures ParseVerseReference("John 3:16a") == None
  {
    TrimmedAlready("love");
    TrimmedAlready("Psalm 23");
    TrimmedAlready("John 3:16a");
    assert ':' !in "love" && ':' !in "Psalm 23" && !IsDigit('a');
    ParseNeedsColonAndFinalDigit("love");
    ParseNeedsColonAndFinalDigit("Psalm 23");
    ParseNeedsColonAndFinalDigit("John 3:16a");
  }

  /** The book group is a single word of letters, so a multi-word book name is rejected. */
  lemma ParseRejectsMultiWordBook()
    ensures ParseVerseReference("Song of Solomon 1:1") == None
  {
    TrimmedAlready("Song of Solomon 1:1");
    ScanStopsAtSecondWord("Song of Solomon 1:1");
  }

  /** After "Song" and a space the scanner expects chapter digits, and finds a letter. */
  lemma ScanStopsAtSecondWord(t: string)
    requires t == "Song of Solomon 1:1"
    ensures ScanReference(t) == None
  {
    RunFromExact(t, 0, 0, Space);
    RunFromExact(t, 0, 4, Letter);
    RunFromExact(t, 4, 5, Space);
    RunFromExact(t, 5, 5, Digit);
  }

  // ---------------------------------------------------------------------
  // Verse ids: `${book}:${chapter}:${verse}`

  /** createVerseId */
  function CreateVerseId(book: string, chapter: int, verse: int): string {
    book + ":" + IntToString(chapter) + ":" + IntToString(verse)
  }

  /** parseVerseId: exactly three ':'-separated parts, the last two read with parseInt. */
  function ParseVerseId(verseId: string): (r: Option<Reference>)
  {
    var parts := Split(verseId, ':');
    if |parts| != 3 then None
    else
      var chapterNum := ParseInt(parts[1]);
      var verseNum := ParseInt(parts[2]);
      if chapterNum.None? || verseNum.None? then None
      else Some(Reference(parts[0], chapterNum.value, verseNum.value))
  }

  /** `id` is `book:chapter:verse` with no ':' inside any of the three parts. */
  predicate SplitsAs(id: string, book: string, chapter: string, verse: string) {
    && id == book + [':'] + (chapter + [':'] + verse)
    && ':' !in book && ':' !in chapter && ':' !in verse
  }

  lemma NoColonInIntToString(n: int)
    ensures ':' !in IntToString(n)
  {
    var s := IntToString(n);
    forall i | 0 <= i < |s| ensures s[i] != ':' {
      if i > 0 {
        assert IsDigit(s[i]);
      }
    }
  }

  lemma SplitOfThree(book: string, chapter: string, verse: string)
    requires ':' !in book && ':' !in chapter && ':' !in verse
    ensures Split(book + [':'] + (chapter + [':'] + verse), ':') == [book, chapter, verse]
  {
    JoinOfThree([book, chapter, verse], ':');
    JoinSplit([book, chapter, verse], ':');
  }

  /** The id of a book free of ':' splits into the book and the two rendered numbers. */
  lemma VerseIdSplits(book: string, chapter: int, verse: int)
    requires ':' !in book
    ensures Split(CreateVerseId(book, chapter, verse), ':') == [book, IntToString(chapter), IntToString(verse)]
  {
    NoColonInIntToString(chapter);
    NoColonInIntToString(verse);
    VerseIdShape(book, IntToString(chapter), IntToString(verse));
    SplitOfThree(book, IntToString(chapter), IntToString(verse));
  }

  lemma VerseIdShape(book: string, chapter: string, verse: string)
    ensures book + ":" + chapter + ":" + verse == book + [':'] + (chapter + [':'] + verse)
  {
  }

  /** Decoding an id made by createVerseId gives back its triple, for any book free of ':'. */
  lemma VerseIdRoundTrip(book: string, chapter: int, verse: int)
    requires ':' !in book
    ensures ParseVerseId(CreateVerseId(book, chapter, verse)) == Some(Reference(book, chapter, verse))
  {
    VerseIdSplits(book, chapter, verse);
    ParseIntOfIntToString(chapter);
    ParseIntOfIntToString(verse);
  }

  /**
   * parseVerseId on `book:c:v` with ':'-free parts reads c and v with
   * parseInt, and is None exactly when either of them is NaN.
   */
  lemma ParseVerseIdComplete(id: string, book: string, chapter: string, verse: string)
    requires SplitsAs(id, book, chapter, verse)
    ensures ParseVerseId(id) ==
      if ParseInt(chapter).None? || ParseInt(verse).None? then None
      else Some(Reference(book, ParseInt(chapter).value, ParseInt(verse).value))
  {
    SplitOfThree(book, chapter, verse);
  }

  /** parseVerseId succeeds only on ids with exactly two ':' whose last two parts parseInt reads. */
  lemma ParseVerseIdSound(id: string)
    ensures ParseVerseId(id).Some? ==>
      var r := ParseVerseId(id).value;
      && multiset(id)[':'] == 2
      && exists chapter, verse :: SplitsAs(id, r.book, chapter, verse)
           && ParseInt(chapter) == Some(r.chapter) && ParseInt(verse) == Some(r.verse)
  {
    var parts := Split(id, ':');
    if |parts| == 3 {
      SplitJoin(id, ':');
      JoinOfThree(parts, ':');
      assert SplitsAs(id, parts[0], parts[1], parts[2]);
    }
  }

  /** An id without exactly two ':' does not split into three parts and is rejected. */
  lemma ParseVerseIdNeedsThreeParts(id: string)
    requires multiset(id)[':'] != 2
    ensures ParseVerseId(id) == None
  {
  }

  /** parseInt reads the leading digits of a part and ignores the rest. */
  lemma ParseVerseIdReadsLeadingDigits()
    ensures ParseVerseId("John:3x:16") == Some(Reference("John", 3, 16))
  {
    assert SplitsAs("John:3x:16", "John", "3x", "16");
    ParseIntOf3x();
    ParseIntOf16();
    ParseVerseIdComplete("John:3x:16", "John", "3x", "16");
  }

  /** A part that does not start with a digit is NaN, and the id is rejected. */
  lemma ParseVerseIdRejectsNaN()
    ensures ParseVerseId("John:x3:16") == None
  {
    assert [] + (Unsigned.Text() + "x3") == "x3";
    assert SplitsAs("John:x3:16", "John", "x3", "16");
    ParseIntNaN([], Unsigned, "x3");
    ParseVerseIdComplete("John:x3:16", "John", "x3", "16");
  }
}
