# BibleSearcher client core in Dafny

This project models three small pieces of logic in the BibleSearcher web client. Each one sits between what the reader types or clicks and the verse data.

- **Verse references and verse ids** (`client/src/lib/bible-data.ts`):
  - `parseVerseReference` reads text such as `John 3:16` using the anchored pattern `^([1-3]?\s*[A-Za-z]+)\s+(\d+):(\d+)$`.
    - The pattern is modelled as a deterministic left-to-right scanner, `BibleData.ScanReference`.
    - The scanner's result is a set of cut points, `BibleData.Cuts`.
  - `formatVerseReference` prints a reference.
  - `createVerseId` and `parseVerseId` encode and decode the `book:chapter:verse` key that highlights and bookmarks are stored under.
  - The JavaScript built-ins these rely on are written out in `JsBuiltins`:
    - `trim`;
    - `split` with a one-character separator;
    - `parseInt(s, 10)`, with `None` standing for NaN;
    - the `${n}` rendering of an integer;
    - `indexOf`, and `splice(i, 1)`.
- **Chapter navigation** (`client/src/pages/bible-study.tsx`):
  - The selected book and chapter are restored from browser storage and written back whenever they change.
  - `handlePreviousChapter` and `handleNextChapter` walk an ordered list of books, crossing book boundaries.
  - The page is the class `BibleStudy.BibleStudyPage`.
    - Its methods are proved against the functions `PreviousPosition`, `NextPosition` and `Saved`.
    - Those functions' properties are proved as lemmas.
- **Annotations** (`client/src/components/bible-content.tsx`, `client/src/components/bookmarks-modal.tsx`):
  - The highlight map (verse id to colour key) with its toggle.
  - The ordered bookmark list with its append-or-remove toggle.
  - The colour-to-class mapping.
  - The choice between search results and chapter verses.
  - The saved-verses panel:
    - it removes every copy of an id;
    - it looks bookmarks up by splitting their ids;
    - it drops failed lookups.
  - The stored state is held in the classes `BibleContent.Annotations` and `BookmarksModal.SavedVersesPanel`.

Each file is one module: `JsBuiltins`, `BibleData`, `BibleStudy`, `BibleContent` and `BookmarksModal`.

Four behaviours of the code are worth stating, because a reader might expect otherwise:

- **Next chapter from an unknown book.** When the selected book is not in the list, `findIndex` gives -1. Since `-1 < books.length - 1`, next-chapter jumps to chapter 1 of the first book. It is a no-op only when the list is empty (`BibleStudy.NextFromUnknownBook`).
- **Toggling a bookmark twice.** This restores the list only when the id was absent at the start. When it was present, the id moves to the end (`BibleContent.BookmarkTwiceMovesToEnd`).
- **Highlight colours.** `toggleHighlight` stores whatever colour string it is given. The map stays within the palette only when callers pass palette keys (`BibleContent.HighlightKeepsPalette`).
- **Stored chapter.** A saved chapter that `parseInt` cannot read becomes NaN, and NaN compares false. So it is modelled as the `NaN` case of `BibleStudy.Chapter`.

## Model

| member | source | states |
|---|---|---|
| JsBuiltins.Trim | client/src/lib/bible-data.ts:44 | String.prototype.trim: the result starts and ends with non-whitespace; its meaning is fixed by TrimPadded and TrimSplits |
| JsBuiltins.TrimPadded | client/src/lib/bible-data.ts:44 | trim removes exactly the whitespace padding around a core that starts and ends with non-whitespace |
| JsBuiltins.TrimIgnoresPadding | client/src/lib/bible-data.ts:44 | extra whitespace on either side never changes the trimmed string |
| JsBuiltins.Split | client/src/lib/bible-data.ts:68 | split(':'): one more part than there are ':' and no ':' inside a part; SplitJoin and JoinSplit make it the inverse of join |
| JsBuiltins.SplitJoin | client/src/lib/bible-data.ts:68 | joining the parts of `split(':')` with ':' gives back the string |
| JsBuiltins.JoinSplit | client/src/lib/bible-data.ts:68 | splitting a join of ':'-free parts gives back the parts |
| JsBuiltins.NatToString | client/src/lib/bible-data.ts:56 | the rendering of a natural is a non-empty digit string without a leading zero whose decimal value is the number |
| JsBuiltins.ParseInt | client/src/lib/bible-data.ts:72-73 | parseInt(s, 10) with None for NaN; no contract of its own, ParseIntPrefix and ParseIntNaN cover every string |
| JsBuiltins.IntToString | client/src/lib/bible-data.ts:56-60 | the `${n}` rendering: an optional '-' then digits only; ParseIntOfIntToString reads it back |
| JsBuiltins.ParseIntOfDigits | client/src/lib/bible-data.ts:50-51 | parseInt reads a string of digits only whole, as its decimal value |
| JsBuiltins.ParseIntPrefix | client/src/lib/bible-data.ts:72-73 | parseInt skips leading whitespace, applies one sign, reads the longest digit run and ignores the rest |
| JsBuiltins.ParseIntNaN | client/src/lib/bible-data.ts:72-75 | parseInt is NaN when no digit follows the whitespace and the optional sign |
| JsBuiltins.ParseIntOfIntToString | client/src/lib/bible-data.ts:60-73 | parseInt reads back every integer rendered by a template string |
| JsBuiltins.IndexOf | client/src/components/bible-content.tsx:64 | indexOf is -1 exactly when the id is absent, else the index of its first occurrence |
| JsBuiltins.IndexOfFirst | client/src/components/bible-content.tsx:64 | indexOf returns the index of the first occurrence |
| JsBuiltins.RemoveAt | client/src/components/bible-content.tsx:66 | splice(i, 1) keeps the elements before i and shifts the ones after it down by one |
| JsBuiltins.NoDuplicatesRemoveAt | client/src/components/bible-content.tsx:66 | splicing out one element keeps a duplicate-free list duplicate-free |
| BibleData.ParseVerseReference | client/src/lib/bible-data.ts:39-53 | no contract of its own; ParseComplete, ParseSound, ParsedReference and ParseIgnoresPadding give its meaning |
| BibleData.FormatVerseReference | client/src/lib/bible-data.ts:55-57 | no contract of its own; FormatRoundTrip states that parsing its output gives back the reference |
| BibleData.ScanReference | client/src/lib/bible-data.ts:37 | every cut the scanner reports matches the whole text against the pattern's pieces |
| BibleData.ScanComplete | client/src/lib/bible-data.ts:37 | every way the pattern matches a text is found by the scanner, with the same pieces |
| BibleData.ParseComplete | client/src/lib/bible-data.ts:44-52 | parseVerseReference succeeds on every text whose trimmed form matches, returning the trimmed book group and the two digit runs' values |
| BibleData.CapturedNumbersAreParseInt | client/src/lib/bible-data.ts:47-51 | the chapter and verse of a captured reference are what parseInt(group, 10) gives for the two number groups |
| BibleData.ParseSound | client/src/lib/bible-data.ts:44-52 | parseVerseReference succeeds only when the trimmed text matches, and then returns the capture groups |
| BibleData.ParsedReference | client/src/lib/bible-data.ts:37-51 | a parsed book is non-empty, starts with 1-3 or a letter and ends with a letter; chapter and verse are non-negative |
| BibleData.BookGroupIsTrimmed | client/src/lib/bible-data.ts:47-49 | inside a trimmed match the book group has nothing for `book.trim()` to remove |
| BibleData.ParseNeedsColonAndFinalDigit | client/src/lib/bible-data.ts:37-45 | a text without ':' or without a final digit after trimming is rejected |
| BibleData.ParseIgnoresPadding | client/src/lib/bible-data.ts:44 | whitespace around the text does not change the parse |
| BibleData.FormatRoundTrip | client/src/lib/bible-data.ts:37-57 | parsing a printed reference with an optional 1-3, whitespace and one word of letters gives back book, chapter and verse |
| BibleData.ParseJohn316 | client/src/lib/bible-data.ts:37-52 | "John 3:16" parses as John, 3, 16 |
| BibleData.ParseFirstCorinthians134 | client/src/lib/bible-data.ts:37-52 | "1 Corinthians 13:4" and "1Corinthians 13:4" parse, the book keeping its numeral |
| BibleData.ParseRejects | client/src/lib/bible-data.ts:37-45 | "love", "Psalm 23" and "John 3:16a" are rejected |
| BibleData.ParseRejectsMultiWordBook | client/src/lib/bible-data.ts:37-45 | "Song of Solomon 1:1" is rejected: the book group is a single word |
| BibleData.CreateVerseId | client/src/lib/bible-data.ts:59-61 | no contract of its own; VerseIdSplits and VerseIdRoundTrip state that parseVerseId decodes it |
| BibleData.ParseVerseId | client/src/lib/bible-data.ts:63-82 | no contract of its own; ParseVerseIdComplete, ParseVerseIdSound and ParseVerseIdNeedsThreeParts give its meaning |
| BibleData.SplitOfThree | client/src/lib/bible-data.ts:68 | `a:b:c` with ':'-free parts splits into exactly a, b and c |
| BibleData.VerseIdSplits | client/src/lib/bible-data.ts:59-68 | a created id whose book has no ':' splits into the book and the two rendered numbers |
| BibleData.VerseIdRoundTrip | client/src/lib/bible-data.ts:59-82 | parseVerseId inverts createVerseId for every book without ':' and all integers |
| BibleData.ParseVerseIdComplete | client/src/lib/bible-data.ts:63-82 | on `book:c:v` with ':'-free parts, the result is None exactly when parseInt of c or v is NaN, else their values |
| BibleData.ParseVerseIdSound | client/src/lib/bible-data.ts:63-82 | a decoded id has exactly two ':', and its parts read with parseInt give the result |
| BibleData.ParseVerseIdNeedsThreeParts | client/src/lib/bible-data.ts:68-69 | an id without exactly two ':' is rejected |
| BibleData.ParseVerseIdReadsLeadingDigits | client/src/lib/bible-data.ts:72-73 | "John:3x:16" decodes as John, 3, 16 because parseInt ignores trailing junk |
| BibleData.ParseVerseIdRejectsNaN | client/src/lib/bible-data.ts:72-75 | "John:x3:16" is rejected because its chapter part is NaN |
| BibleStudy.FindIndex | client/src/pages/bible-study.tsx:69 | findIndex gives -1 exactly when no book has the name, else the first index holding it |
| BibleStudy.PreviousPosition | client/src/pages/bible-study.tsx:64-76 | no contract of its own; PreviousStepsBack, PreviousCrossesBook and PreviousStopsAtStart cover every case |
| BibleStudy.NextPosition | client/src/pages/bible-study.tsx:78-91 | no contract of its own; NextStepsForward, NextCrossesBook, NextStopsAtEnd and NextFromUnknownBook cover every case |
| BibleStudy.PreviousStepsBack | client/src/pages/bible-study.tsx:65-66 | above chapter 1, previous-chapter steps back one chapter in the same book, whatever the list |
| BibleStudy.PreviousCrossesBook | client/src/pages/bible-study.tsx:67-74 | at chapter 1 (or NaN) of the book at index i > 0, previous-chapter moves to the last chapter of book i-1 |
| BibleStudy.PreviousStopsAtStart | client/src/pages/bible-study.tsx:69-70 | at chapter 1 of the first book, or of a book not in the list, previous-chapter changes nothing |
| BibleStudy.NextStepsForward | client/src/pages/bible-study.tsx:79-81 | below the book's chapter count, next-chapter steps forward one chapter in the same book |
| BibleStudy.NextCrossesBook | client/src/pages/bible-study.tsx:82-90 | at or past the last chapter of the book at index i before the last, next-chapter moves to chapter 1 of book i+1 |
| BibleStudy.NextStopsAtEnd | client/src/pages/bible-study.tsx:82-90 | at or past the last chapter of the last book, next-chapter changes nothing |
| BibleStudy.NextFromUnknownBook | client/src/pages/bible-study.tsx:79-90 | from a book not in the list, next-chapter moves to chapter 1 of the first book, or does nothing on an empty list |
| BibleStudy.IndexOfValid | client/src/pages/bible-study.tsx:69 | findIndex locates the book of a valid position, and its chapter lies within that book |
| BibleStudy.NavigationKeepsValid | client/src/pages/bible-study.tsx:64-91 | both handlers keep a valid position (listed book, chapter in 1..chapters, distinct names) valid |
| BibleStudy.NextUndoesPrevious | client/src/pages/bible-study.tsx:64-91 | from a valid position, next-chapter undoes every previous-chapter that moved |
| BibleStudy.PreviousUndoesNext | client/src/pages/bible-study.tsx:64-91 | from a valid position, previous-chapter undoes every next-chapter that moved |
| BibleStudy.GenesisExodus | client/src/pages/bible-study.tsx:64-91 | with Genesis (50) and Exodus (40): Exodus 1 goes back to Genesis 50 and Genesis 50 forward to Exodus 1, while Exodus 40 and Genesis 1 stay put |
| BibleStudy.InitialPosition | client/src/pages/bible-study.tsx:11-17 | no contract of its own; StartsAtGenesis1 and RestartRestoresPosition give its meaning |
| BibleStudy.Saved | client/src/pages/bible-study.tsx:28-31 | no contract of its own; RestartRestoresPosition and SavedIdempotent give its meaning |
| BibleStudy.StartsAtGenesis1 | client/src/pages/bible-study.tsx:11-17 | with nothing saved, reading starts at Genesis 1 |
| BibleStudy.ChapterTextRoundTrip | client/src/pages/bible-study.tsx:16-30 | the saved chapter text is never empty, and parseInt reads it back as the chapter, NaN included |
| BibleStudy.RestartRestoresPosition | client/src/pages/bible-study.tsx:11-31 | after the write-back, the storage holds the position and a reload restores it, for a non-empty book name |
| BibleStudy.SavedIdempotent | client/src/pages/bible-study.tsx:28-31 | writing back a position the storage already holds changes nothing |
| BibleStudy.BibleStudyPage.constructor | client/src/pages/bible-study.tsx:11-17 | the initial position is the restored one, and the first effect run saves it |
| BibleStudy.BibleStudyPage.WriteBack | client/src/pages/bible-study.tsx:28-31 | the effect saves the book and the chapter text, leaving the position as it is |
| BibleStudy.BibleStudyPage.HandlePreviousChapter | client/src/pages/bible-study.tsx:64-76 | the new position is PreviousPosition of the old one, and the storage holds it |
| BibleStudy.BibleStudyPage.HandleNextChapter | client/src/pages/bible-study.tsx:78-91 | the new position is NextPosition of the old one, and the storage holds it |
| BibleContent.ToggledHighlights | client/src/components/bible-content.tsx:52-60 | no contract of its own; HighlightSetsColour, HighlightClears, HighlightFlips and HighlightTwiceRestores give its meaning |
| BibleContent.HighlightSetsColour | client/src/components/bible-content.tsx:52-59 | a verse without a highlight gets the selected colour, and every other entry is untouched |
| BibleContent.HighlightClears | client/src/components/bible-content.tsx:54-55 | a highlighted verse loses its entry whatever colour is selected; other entries are untouched |
| BibleContent.HighlightFlips | client/src/components/bible-content.tsx:52-59 | with a non-empty colour, the toggle flips whether the verse is highlighted |
| BibleContent.HighlightTwiceRestores | client/src/components/bible-content.tsx:52-59 | toggling a verse with no entry twice restores the map, whatever the second colour |
| BibleContent.HighlightKeepsPalette | client/src/components/bible-content.tsx:52-59 | toggling with a palette colour keeps a palette-only map palette-only |
| BibleContent.HighlightClass | client/src/components/bible-content.tsx:73-81 | no contract of its own; HighlightClassOfPalette ties it to the palette |
| BibleContent.HighlightClassOfPalette | client/src/components/bible-content.tsx:73-81 | each palette key maps to its own class; any other string maps to the yellow class |
| BibleContent.ToggledBookmarks | client/src/components/bible-content.tsx:62-71 | no contract of its own; BookmarkAppends, BookmarkRemovesFirst and BookmarkKeepsNoDuplicates give its meaning |
| BibleContent.BookmarkAppends | client/src/components/bible-content.tsx:67-68 | an id that is not bookmarked is appended as the last element, keeping the rest |
| BibleContent.BookmarkRemovesFirst | client/src/components/bible-content.tsx:64-66 | a bookmarked id loses only its first occurrence; reinserting it there gives the original list |
| BibleContent.BookmarkKeepsNoDuplicates | client/src/components/bible-content.tsx:62-71 | toggleBookmark keeps a duplicate-free list duplicate-free |
| BibleContent.BookmarkTwiceRestores | client/src/components/bible-content.tsx:62-71 | toggling an absent id twice restores the list |
| BibleContent.BookmarkTwiceMovesToEnd | client/src/components/bible-content.tsx:62-71 | in a duplicate-free list, toggling a present id twice moves it from its index to the end |
| BibleContent.DisplayVerses | client/src/components/bible-content.tsx:50 | a non-empty query displays the search results, an empty one the chapter's verses |
| BibleContent.VerseIdOf | client/src/components/bible-content.tsx:148 | no contract of its own; VerseIdOfDecodes states that it decodes back to the verse's reference |
| BibleContent.VerseIdOfDecodes | client/src/components/bible-content.tsx:148 | the id a displayed verse is stored under decodes back to its reference when the book has no ':' |
| BibleContent.Annotations.constructor | client/src/components/bible-content.tsx:28-29 | the component starts from the stored map and list |
| BibleContent.Annotations.ToggleHighlight | client/src/components/bible-content.tsx:52-60 | the new map is the toggled map, and the bookmarks are unchanged |
| BibleContent.Annotations.ToggleBookmark | client/src/components/bible-content.tsx:62-71 | the new list is the toggled list, and the highlights are unchanged |
| BookmarksModal.RemoveAll | client/src/components/bookmarks-modal.tsx:33 | the filter never lengthens the list; RemoveAllCounts and RemoveAllConcat state what it keeps and in which order |
| BookmarksModal.RemoveAllConcat | client/src/components/bookmarks-modal.tsx:33 | the filter distributes over concatenation, so the kept ids keep their order |
| BookmarksModal.RemoveAllCounts | client/src/components/bookmarks-modal.tsx:33 | no copy of the id is left, and every other id keeps its number of occurrences |
| BookmarksModal.RemoveAllRemovesEvery | client/src/components/bookmarks-modal.tsx:33 | the id no longer occurs |
| BookmarksModal.RemoveAllAbsent | client/src/components/bookmarks-modal.tsx:33 | removing an id that is not bookmarked leaves the list unchanged |
| BookmarksModal.RemoveAllIdempotent | client/src/components/bookmarks-modal.tsx:33 | removing twice is removing once |
| BookmarksModal.RemoveAllAgreesWithToggle | client/src/components/bookmarks-modal.tsx:33 | on a duplicate-free list holding the id, the panel's removal equals toggleBookmark's |
| BookmarksModal.LookupPath | client/src/components/bookmarks-modal.tsx:21-22 | no contract of its own; LookupPathOfVerseId states the path of a verse's own id |
| BookmarksModal.LookupPathOfVerseId | client/src/components/bookmarks-modal.tsx:21-22 | when the book has no ':', a verse's bookmark is looked up under that verse's own book, chapter and verse |
| BookmarksModal.Lookups | client/src/components/bookmarks-modal.tsx:20-26 | one lookup per bookmark, in bookmark order, each by the bookmark's path |
| BookmarksModal.ShownVerses | client/src/components/bookmarks-modal.tsx:27 | filter(Boolean) never lengthens the list; ShownVersesMembers and ShownVersesConcat state what it keeps and in which order |
| BookmarksModal.SavedVerses | client/src/components/bookmarks-modal.tsx:20-27 | no contract of its own; SavedVersesMembers gives its meaning |
| BookmarksModal.ShownVersesConcat | client/src/components/bookmarks-modal.tsx:27 | dropping failed lookups distributes over concatenation, keeping the order |
| BookmarksModal.ShownVersesMembers | client/src/components/bookmarks-modal.tsx:27 | a verse is shown exactly when some lookup returned it |
| BookmarksModal.ShownVersesAllFound | client/src/components/bookmarks-modal.tsx:27 | when every lookup succeeds, one verse is shown per bookmark |
| BookmarksModal.SavedVersesMembers | client/src/components/bookmarks-modal.tsx:20-27 | a verse is listed exactly when the lookup of some bookmark's path returned it |
| BookmarksModal.SavedVersesPanel.constructor | client/src/components/bookmarks-modal.tsx:14 | the panel starts from the stored bookmark list |
| BookmarksModal.SavedVersesPanel.RemoveBookmark | client/src/components/bookmarks-modal.tsx:32-35 | the new list is the old one with every copy of the id filtered out |

## Left out

- Network I/O is not modelled. The `fetch` calls and react-query caching (bible-content.tsx:31-48, bookmarks-modal.tsx:16-30, bible-study.tsx:23-25) are outside the model.
  - The book list, the chapter's verses and the search results are parameters.
  - The per-bookmark request is an abstract `lookup` function from path to an optional verse, where None is a response that is not ok.
  - A request that throws, and the order in which requests complete, are not modelled.
  - BookmarksModal.SavedVersesMembers describes the list as fetched, not the current bookmarks.
    - The saved-verses query key `["/api/verses/all"]` (bookmarks-modal.tsx:17) does not include the bookmarks, so the list is not fetched again after `removeBookmark` or a toggle.
    - When `enabled` turns false because the list is empty (bookmarks-modal.tsx:29), the cached verses stay.
    - The panel can therefore show verses whose bookmarks were removed, which this model does not capture.
- Browser storage is modelled as plain fields:
  - `localStorage` is the `storage` map of `BibleStudyPage`;
  - the `useLocalStorage` values are the fields of `Annotations` and `SavedVersesPanel`.
  - JSON serialisation and the hook itself are not part of this model.
  - The two components share one bookmark list in the browser; here they are two separate objects.
- React state is modelled as synchronous assignment:
  - setters take effect immediately;
  - the write-back effect runs right after a change;
  - re-renders and stale closures are not modelled.
- The search is not modelled:
  - how the query is dispatched and debounced (`SEARCH_DEBOUNCE_MS` is never used);
  - how stale results are discarded.
  - The client sends each non-empty query straight to the server (bible-content.tsx:40-48). Only the choice of which list to display is modelled.
  - `parseVerseReference` is modelled even though no caller among the modelled files uses it.
- The keyboard listener (bible-study.tsx:34-62) and `isMobile` are DOM and window plumbing. Only the handlers they call are modelled.
- JavaScript `\s`, `trim` and parseInt's whitespace skipping use Unicode whitespace. This model uses the ASCII set of space, tab, newline, vertical tab, form feed and carriage return.
- JavaScript numbers are modelled as unbounded integers:
  - no floating point, no `-0`, no `Infinity`;
  - no exponent rendering of very large numbers in `${n}`;
  - no loss of precision in `parseInt`.
  - The only non-integer value modelled is the NaN chapter.
- The highlight record is a map from string to string. Inherited object-prototype keys and non-string values are not modelled.
- Book and verse records keep only the fields the logic reads. `Verse.id` and `Verse.text` are carried but unused.
- Rendering is not modelled: the JSX of all four components, and the pages and components outside this core.
- `DEFAULT_BOOK` ("Matthew") and `DEFAULT_CHAPTER` in bible-data.ts are unused by the page, which defaults to "Genesis" and 1. The model uses the page's own defaults.
- BibleData.FormatRoundTrip: restricted to books made of an optional numeral 1-3, whitespace and one word of ASCII letters, and to natural chapter and verse numbers.
  - Other books do not match the pattern.
  - A negative number prints a '-' that `\d+` rejects.
- BibleStudy.RestartRestoresPosition: requires a non-empty book name, because an empty saved name is read back as "Genesis".
- BibleContent.HighlightTwiceRestores: requires a non-empty colour and a verse with no entry.
  - An entry holding "" counts as not highlighted and is overwritten.
  - An empty colour stores a value that counts as not highlighted.
