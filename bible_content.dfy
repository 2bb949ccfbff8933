/**
 * The annotation state of client/src/components/bible-content.tsx: the
 * highlight map from verse id to colour key and the ordered bookmark list,
 * with the two toggles that update them, plus the colour-to-class mapping,
 * the choice between search results and chapter verses, and the verse id a
 * displayed verse is stored under.
 */
module BibleContent {
  import opened JsBuiltins
  import opened BibleData

  // ---------------------------------------------------------------------
  // Highlights: verse id -> colour key

  /** `highlights[verseId]` is truthy: an entry holding a non-empty string. */
  predicate IsHighlighted(highlights: map<string, string>, verseId: string) {
    verseId in highlights && highlights[verseId] != ""
  }

  /** The map toggleHighlight writes back. */
  function ToggledHighlights(highlights: map<string, string>, verseId: string, color: string): map<string, string> {
    if IsHighlighted(highlights, verseId) then highlights - {verseId}
    else highlights[verseId := color]
  }

  /** Every entry other than `verseId` is the same in both maps. */
  predicate SameElsewhere(m: map<string, string>, m': map<string, string>, verseId: string) {
    m - {verseId} == m' - {verseId}
  }

  /** A verse without a highlight gets the selected colour, and nothing else changes. */
  lemma HighlightSetsColour(highlights: map<string, string>, verseId: string, color: string)
    requires !IsHighlighted(highlights, verseId)
    ensures var r := ToggledHighlights(highlights, verseId, color);
      verseId in r && r[verseId] == color && SameElsewhere(highlights, r, verseId)
  {
  }

  /** A highlighted verse loses its entry whatever colour is selected: toggling never recolours. */
  lemma HighlightClears(highlights: map<string, string>, verseId: string, color: string)
    requires IsHighlighted(highlights, verseId)
    ensures var r := ToggledHighlights(highlights, verseId, color);
      verseId !in r && SameElsewhere(highlights, r, verseId)
  {
  }

  /** With a non-empty colour the toggle flips whether the verse is highlighted. */
  lemma HighlightFlips(highlights: map<string, string>, verseId: string, color: string)
    requires color != ""
    ensures IsHighlighted(ToggledHighlights(highlights, verseId, color), verseId) <==> !IsHighlighted(highlights, verseId)
  {
  }

  /** Toggling a verse that has no entry twice gives back the original map. */
  lemma HighlightTwiceRestores(highlights: map<string, string>, verseId: string, color: string, color': string)
    requires verseId !in highlights && color != ""
    ensures ToggledHighlights(ToggledHighlights(highlights, verseId, color), verseId, color') == highlights
  {
    var once := ToggledHighlights(highlights, verseId, color);
    assert IsHighlighted(once, verseId);
    assert once - {verseId} == highlights;
  }

  /** Every value of the map is a key of the palette. */
  ghost predicate PaletteOnly(highlights: map<string, string>) {
    forall k :: k in highlights ==> exists c: HighlightColor :: highlights[k] == c.Key()
  }

  /** Toggling with a palette colour keeps a palette-only map palette-only. */
  lemma HighlightKeepsPalette(highlights: map<string, string>, verseId: string, color: HighlightColor)
    requires PaletteOnly(highlights)
    ensures PaletteOnly(ToggledHighlights(highlights, verseId, color.Key()))
  {
    var r := ToggledHighlights(highlights, verseId, color.Key());
    forall k | k in r ensures exists c: HighlightColor :: r[k] == c.Key() {
      if k == verseId && !IsHighlighted(highlights, verseId) {
        assert r[k] == color.Key();
      } else {
        assert r[k] == highlights[k];
      }
    }
  }

  /** getHighlightClass */
  function HighlightClass(color: string): string {
    if color == "yellow" then "bg-highlight-yellow"
    else if color == "blue" then "bg-highlight-blue"
    else if color == "red" then "bg-highlight-red"
    else if color == "green" then "bg-highlight-green"
    else "bg-highlight-yellow"
  }

  /** Each palette key gets its own class; any other string gets the yellow class. */
  lemma HighlightClassOfPalette(color: string)
    ensures forall c: HighlightColor :: color == c.Key() ==> HighlightClass(color) == c.ClassName()
    ensures (forall c: HighlightColor :: color != c.Key()) ==> HighlightClass(color) == DEFAULT_HIGHLIGHT_COLOR.ClassName()
  {
    assert Yellow.Key() == "yellow" && Blue.Key() == "blue" && Red.Key() == "red" && Green.Key() == "green";
  }

  // ---------------------------------------------------------------------
  // Bookmarks: an ordered list of verse ids

  /** The list toggleBookmark writes back: splice out the first occurrence, or push. */
  function ToggledBookmarks(bookmarks: seq<string>, verseId: string): seq<string> {
    var index := IndexOf(bookmarks, verseId);
    if index > -1 then RemoveAt(bookmarks, index) else bookmarks + [verseId]
  }

  /** An id that is not bookmarked is appended as the last element. */
  lemma BookmarkAppends(bookmarks: seq<string>, verseId: string)
    requires verseId !in bookmarks
    ensures var r := ToggledBookmarks(bookmarks, verseId);
      |r| == |bookmarks| + 1 && r[..|bookmarks|] == bookmarks && r[|bookmarks|] == verseId
  {
  }

  /**
   * A bookmarked id loses only its first occurrence: putting it back at
   * index `i` gives the original list, and the other ids keep their order.
   */
  lemma BookmarkRemovesFirst(bookmarks: seq<string>, verseId: string, i: int)
    requires 0 <= i < |bookmarks| && bookmarks[i] == verseId && verseId !in bookmarks[..i]
    ensures var r := ToggledBookmarks(bookmarks, verseId);
      |r| == |bookmarks| - 1 && r[..i] + [verseId] + r[i..] == bookmarks
  {
    var r := ToggledBookmarks(bookmarks, verseId);
    forall k | 0 <= k < i ensures bookmarks[k] != verseId {
      assert bookmarks[..i][k] == bookmarks[k];
    }
    IndexOfFirst(bookmarks, verseId, i);
    assert r[..i] == bookmarks[..i];
    assert r[i..] == bookmarks[i + 1..];
  }

  /** toggleBookmark keeps a list without duplicates free of duplicates. */
  lemma BookmarkKeepsNoDuplicates(bookmarks: seq<string>, verseId: string)
    requires NoDuplicates(bookmarks)
    ensures NoDuplicates(ToggledBookmarks(bookmarks, verseId))
  {
    var index := IndexOf(bookmarks, verseId);
    if index > -1 {
      NoDuplicatesRemoveAt(bookmarks, index);
    } else {
      NoDuplicatesAppend(bookmarks, verseId);
    }
  }

  /** Toggling an id that is not bookmarked twice gives back the original list. */
  lemma BookmarkTwiceRestores(bookmarks: seq<string>, verseId: string)
    requires verseId !in bookmarks
    ensures ToggledBookmarks(ToggledBookmarks(bookmarks, verseId), verseId) == bookmarks
  {
    var once := bookmarks + [verseId];
    BookmarkRemovesFirst(once, verseId, |bookmarks|);
    assert once[..|bookmarks|] == bookmarks;
  }

  /**
   * Toggling a bookmarked id twice does not give back the list: the id
   * moves from index `i` to the end.
   */
  lemma BookmarkTwiceMovesToEnd(bookmarks: seq<string>, verseId: string, i: int)
    requires NoDuplicates(bookmarks)
    requires 0 <= i < |bookmarks| && bookmarks[i] == verseId
    ensures ToggledBookmarks(ToggledBookmarks(bookmarks, verseId), verseId)
         == RemoveAt(bookmarks, i) + [verseId]
  {
    forall k | 0 <= k < i ensures bookmarks[k] != verseId {
      assert bookmarks[k] != bookmarks[i];
    }
    IndexOfFirst(bookmarks, verseId, i);
    var once := RemoveAt(bookmarks, i);
    forall k | 0 <= k < |once| ensures once[k] != verseId {
      var k' := if k < i then k else k + 1;
      assert once[k] == bookmarks[k'];
    }
  }

  // ---------------------------------------------------------------------
  // Display

  /** `displayVerses`: the search results while a query is typed, else the chapter's verses. */
  function DisplayVerses(searchQuery: string, searchResults: seq<Verse>, verses: seq<Verse>): (r: seq<Verse>)
    ensures searchQuery != "" ==> r == searchResults
    ensures searchQuery == "" ==> r == verses
  {
    if searchQuery != "" then searchResults else verses
  }

  /** The id a displayed verse is highlighted and bookmarked under. */
  function VerseIdOf(v: Verse): string {
    CreateVerseId(v.book, v.chapter, v.verse)
  }

  /** The id of a verse whose book has no ':' decodes back to the verse's reference. */
  lemma VerseIdOfDecodes(v: Verse)
    requires ':' !in v.book
    ensures ParseVerseId(VerseIdOf(v)) == Some(Reference(v.book, v.chapter, v.verse))
  {
    VerseIdRoundTrip(v.book, v.chapter, v.verse);
  }

  // ---------------------------------------------------------------------
  // The component's stored state

  /** The two storage-backed values the component reads and replaces. */
  class Annotations {
    var highlights: map<string, string>
    var bookmarks: seq<string>

    constructor(highlights: map<string, string>, bookmarks: seq<string>)
      ensures this.highlights == highlights && this.bookmarks == bookmarks
    {
      this.highlights := highlights;
      this.bookmarks := bookmarks;
    }

    /** toggleHighlight: copy the map, delete or set the entry, write the copy back. */
    method ToggleHighlight(verseId: string, selectedHighlightColor: string)
      modifies this
      ensures highlights == ToggledHighlights(old(highlights), verseId, selectedHighlightColor)
      ensures bookmarks == old(bookmarks)
    {
      var newHighlights := highlights;
      if verseId in newHighlights && newHighlights[verseId] != "" {
        newHighlights := newHighlights - {verseId};
      } else {
        newHighlights := newHighlights[verseId := selectedHighlightColor];
      }
      highlights := newHighlights;
    }

    /** toggleBookmark: copy the list, splice out the first occurrence or push, write the copy back. */
    method ToggleBookmark(verseId: string)
      modifies this
      ensures bookmarks == ToggledBookmarks(old(bookmarks), verseId)
      ensures highlights == old(highlights)
    {
      var newBookmarks := bookmarks;
      var index := IndexOf(newBookmarks, verseId);
      if index > -1 {
        newBookmarks := RemoveAt(newBookmarks, index);
      } else {
        newBookmarks := newBookmarks + [verseId];
      }
      bookmarks := newBookmarks;
    }
  }
}
