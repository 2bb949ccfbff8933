/**
 * The saved-verses panel of client/src/components/bookmarks-modal.tsx: it
 * looks up every bookmarked verse by splitting its id into the three parts
 * of a verse path, shows the lookups that succeeded in bookmark order, and
 * removes a bookmark by filtering out every copy of its id.
 */
module BookmarksModal {
  import opened JsBuiltins
  import opened BibleData
  import opened BibleContent

  // ---------------------------------------------------------------------
  // removeBookmark: `bookmarks.filter(id => id !== verseId)`

  function RemoveAll(bookmarks: seq<string>, verseId: string): (r: seq<string>)
    ensures |r| <= |bookmarks|
  {
    if bookmarks == [] then []
    else if bookmarks[0] == verseId then RemoveAll(bookmarks[1..], verseId)
    else [bookmarks[0]] + RemoveAll(bookmarks[1..], verseId)
  }

  /** The filter distributes over concatenation: what is kept keeps its order. */
  lemma {:induction false} RemoveAllConcat(a: seq<string>, b: seq<string>, verseId: string)
    ensures RemoveAll(a + b, verseId) == RemoveAll(a, verseId) + RemoveAll(b, verseId)
  {
    if a != [] {
      assert (a + b)[1..] == a[1..] + b;
      RemoveAllConcat(a[1..], b, verseId);
    } else {
      assert a + b == b;
    }
  }

  /** Every occurrence of the id goes, and every other id keeps its number of occurrences. */
  lemma {:induction false} RemoveAllCounts(bookmarks: seq<string>, verseId: string)
    ensures multiset(RemoveAll(bookmarks, verseId))[verseId] == 0
    ensures forall x :: x != verseId ==> multiset(RemoveAll(bookmarks, verseId))[x] == multiset(bookmarks)[x]
  {
    if bookmarks != [] {
      RemoveAllCounts(bookmarks[1..], verseId);
      assert bookmarks == [bookmarks[0]] + bookmarks[1..];
    }
  }

  /** No copy of the id is left. */
  lemma RemoveAllRemovesEvery(bookmarks: seq<string>, verseId: string)
    ensures verseId !in RemoveAll(bookmarks, verseId)
  {
    RemoveAllCounts(bookmarks, verseId);
  }

  /** Removing an id that is not bookmarked leaves the list as it is. */
  lemma {:induction false} RemoveAllAbsent(bookmarks: seq<string>, verseId: string)
    requires verseId !in bookmarks
    ensures RemoveAll(bookmarks, verseId) == bookmarks
  {
    if bookmarks != [] {
      assert bookmarks[0] != verseId;
      RemoveAllAbsent(bookmarks[1..], verseId);
    }
  }

  /** Removing twice is removing once. */
  lemma RemoveAllIdempotent(bookmarks: seq<string>, verseId: string)
    ensures RemoveAll(RemoveAll(bookmarks, verseId), verseId) == RemoveAll(bookmarks, verseId)
  {
    RemoveAllRemovesEvery(bookmarks, verseId);
    RemoveAllAbsent(RemoveAll(bookmarks, verseId), verseId);
  }

  /**
   * On a list without duplicates that holds the id, the panel's removal and
   * the toggle's removal give the same list.
   */
  lemma RemoveAllAgreesWithToggle(bookmarks: seq<string>, verseId: string)
    requires NoDuplicates(bookmarks) && verseId in bookmarks
    ensures RemoveAll(bookmarks, verseId) == ToggledBookmarks(bookmarks, verseId)
  {
    var i := IndexOf(bookmarks, verseId);
    var before, rest, after := bookmarks[..i], bookmarks[i..], bookmarks[i + 1..];
    SplitAt(bookmarks, i);
    NoDuplicatesAfter(bookmarks, i);
    assert rest[1..] == after;
    RemoveAllConcat(before, rest, verseId);
    RemoveAllAbsent(before, verseId);
    RemoveAllAbsent(after, verseId);
  }

  // ---------------------------------------------------------------------
  // Looking bookmarked verses up

  /** `${x}` for a destructured part that may be missing: a missing one renders as "undefined". */
  function PartText(parts: seq<string>, i: nat): string {
    if i < |parts| then parts[i] else "undefined"
  }

  /** The lookup path for a bookmark: `const [book, chapter, verse] = verseId.split(':')`. */
  function LookupPath(verseId: string): string {
    var parts := Split(verseId, ':');
    "/api/verses/" + PartText(parts, 0) + "/" + PartText(parts, 1) + "/" + PartText(parts, 2)
  }

  /** The bookmark of a verse whose book has no ':' is looked up by the verse's own book, chapter and verse. */
  lemma LookupPathOfVerseId(v: Verse)
    requires ':' !in v.book
    ensures LookupPath(VerseIdOf(v)) == "/api/verses/" + v.book + "/" + IntToString(v.chapter) + "/" + IntToString(v.verse)
  {
    VerseIdSplits(v.book, v.chapter, v.verse);
  }

  /** `verses.filter(Boolean)`: the lookups that found a verse, in bookmark order. */
  function ShownVerses(lookups: seq<Option<Verse>>): (r: seq<Verse>)
    ensures |r| <= |lookups|
  {
    if lookups == [] then []
    else if lookups[0].Some? then [lookups[0].value] + ShownVerses(lookups[1..])
    else ShownVerses(lookups[1..])
  }

  /** The shown list distributes over concatenation: it keeps the bookmark order. */
  lemma {:induction false} ShownVersesConcat(a: seq<Option<Verse>>, b: seq<Option<Verse>>)
    ensures ShownVerses(a + b) == ShownVerses(a) + ShownVerses(b)
  {
    if a != [] {
      assert (a + b)[1..] == a[1..] + b;
      ShownVersesConcat(a[1..], b);
    } else {
      assert a + b == b;
    }
  }

  /** A verse is shown exactly when some lookup found it. */
  lemma {:induction false} ShownVersesMembers(lookups: seq<Option<Verse>>, v: Verse)
    ensures v in ShownVerses(lookups) <==> Some(v) in lookups
  {
    if lookups != [] {
      ShownVersesMembers(lookups[1..], v);
      assert lookups == [lookups[0]] + lookups[1..];
    }
  }

  /** When every lookup succeeds, one verse is shown per bookmark. */
  lemma {:induction false} ShownVersesAllFound(lookups: seq<Option<Verse>>)
    requires forall i :: 0 <= i < |lookups| ==> lookups[i].Some?
    ensures |ShownVerses(lookups)| == |lookups|
  {
    if lookups != [] {
      ShownVersesAllFound(lookups[1..]);
    }
  }

  /**
   * The panel's verse list: every bookmark looked up by its path, with
   * `lookup` standing for the request (None for a response that is not ok).
   */
  function SavedVerses(bookmarks: seq<string>, lookup: string -> Option<Verse>): seq<Verse> {
    ShownVerses(Lookups(bookmarks, lookup))
  }

  /** `Promise.all` over the bookmarks: one lookup result per bookmark, in order. */
  function Lookups(bookmarks: seq<string>, lookup: string -> Option<Verse>): (r: seq<Option<Verse>>)
    ensures |r| == |bookmarks|
    ensures forall i :: 0 <= i < |r| ==> r[i] == lookup(LookupPath(bookmarks[i]))
  {
    seq(|bookmarks|, i requires 0 <= i < |bookmarks| => lookup(LookupPath(bookmarks[i])))
  }

  /** A verse is listed exactly when the lookup of some bookmark's path returned it. */
  lemma SavedVersesMembers(bookmarks: seq<string>, lookup: string -> Option<Verse>, v: Verse)
    ensures v in SavedVerses(bookmarks, lookup) <==> exists i :: 0 <= i < |bookmarks| && lookup(LookupPath(bookmarks[i])) == Some(v)
  {
    ShownVersesMembers(Lookups(bookmarks, lookup), v);
  }

  /** The panel's state: the storage-backed bookmark list. */
  class SavedVersesPanel {
    var bookmarks: seq<string>

    constructor(bookmarks: seq<string>)
      ensures this.bookmarks == bookmarks
    {
      this.bookmarks := bookmarks;
    }

    /** removeBookmark: filter out the id and write the new list back. */
    method RemoveBookmark(verseId: string)
      modifies this
      ensures bookmarks == RemoveAll(old(bookmarks), verseId)
    {
      var newBookmarks := RemoveAll(bookmarks, verseId);
      bookmarks := newBookmarks;
    }
  }
}
