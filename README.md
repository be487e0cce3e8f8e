# Book-rating library core, modelled in Dafny

This project models the core of a small book-rating web application. Signed-in readers rate catalog books into a personal library and attach reading sheets to them. They group books into cabinets, and see a community top three on the home page. The model covers:

- **The library store** (`LibraryStore.Store`): a class with two sequence fields, `library` and `cabinets`, and the six operations the pages call on it: add a rated book, save a reading sheet, remove a book, test membership, create a cabinet, move a book between cabinets. Each method is tied to a pure function of the previous state, and keeps unique book ids and cabinet ids (for `CreateCabinet`, only when the generated cabinet id is unused).
- **Reconciliation at sign-in** (`LibraryMerge`): the remote snapshot (primary) and the local one (secondary) are merged by id through a JavaScript `Map` (`OrderedMaps`, `KeyedIndex`). Books keep the entry with the latest parsable read date. Cabinets union their book ids and keep the stored name unless it is empty. The merged result is written back when a count changed.
- **The community top three** (`TopBooks`): votes are tallied per book id in a `Map`, the tallies are sorted by total stars and then by vote count, and the first three are kept. The local library is used only when the remote libraries hold no vote, or after the remote read fails.
- **The library page** (`LibraryPage`): the split of the library into the books of each cabinet and the books no cabinet holds, plus the empty state.
- **Reading sheets** (`ReadingSheets`, `BookDetailTabs`): the two built-in templates, the choice of template, the blank answers a new sheet starts with, the saved sheet, and the text shown for each answer.
- **The catalog client** (`GoogleBooks`): the defaults applied to a catalog volume and the empty-query guard of the search.
- **The login redirect** (`Login`): the sanitised redirect path and the navigation after sign-in.

Timestamps are integers. A read date that does not parse is `None`. The clock, the generated cabinet id, the catalog's answer and the stored snapshots are all parameters.

When neither read date parses, the local (secondary) entry wins, because the code replaces a stored entry whose date does not parse (`src/context/LibraryContext.tsx:65`); `LibraryMerge.MergeLibraryClash` and `LibraryMerge.LatestWins` state this.

## Model

| member | source | states |
|---|---|---|
| Seqs.Dedup | src/context/LibraryContext.tsx:82 | `Array.from(new Set(xs))`: no repetition, the same elements, unchanged when already repetition-free, no longer than the input |
| Seqs.DedupPrefix | src/context/LibraryContext.tsx:82 | the deduplicated stored ids are a prefix of the deduplicated concatenation (stored ids keep their order and come first) |
| Seqs.DedupAbsorbs | src/context/LibraryContext.tsx:82 | deduplicating an already deduplicated prefix again gives the same result as deduplicating once |
| Seqs.DedupGrows | src/context/LibraryContext.tsx:120 | for a repetition-free `a`, deduplicating `a + b` is longer than `a` exactly when `b` holds an element `a` lacks |
| Seqs.Without | src/context/LibraryContext.tsx:198 | `filter((id) => id !== x)`: `x` is gone, every other element keeps its membership and multiplicity, repetition-freedom is kept, and nothing changes when `x` is absent |
| Seqs.WithoutAppend | src/context/LibraryContext.tsx:229 | the filter distributes over concatenation, so it keeps order |
| Seqs.DedupSnoc | src/context/LibraryContext.tsx:235 | appending an element the list lacks and deduplicating puts it last, after the deduplicated list |
| Seqs.DistinctCardinality | src/context/LibraryContext.tsx:71 | a repetition-free list has as many distinct elements as entries |
| OrderedMaps.OrderedMap.Set | src/context/LibraryContext.tsx:60 | `map.set(k, v)`: the value of `k` becomes `v`; a new key goes last and an existing key keeps its place; keys stay unique |
| OrderedMaps.OrderedMap.Values | src/context/LibraryContext.tsx:71 | `Array.from(map.values())`: one value per key, in key order |
| OrderedMaps.ValuesAre | src/context/LibraryContext.tsx:71 | a value is listed exactly when some key holds it |
| KeyedIndex.Index | src/context/LibraryContext.tsx:55-72 | the `Map` after walking the entries with `addOrUpdate`: its keys are exactly the keys of the walked entries |
| KeyedIndex.IndexKeys | src/context/LibraryContext.tsx:69-71 | the `Map`'s keys are the distinct keys of the walk, in order of first appearance |
| KeyedIndex.IndexEmpty | src/app/page.tsx:99 | the `Map` is empty exactly when nothing was walked |
| KeyedIndex.IndexAt | src/context/LibraryContext.tsx:57-68 | the value stored under a key is the combine function folded, left to right, over the entries with that key and no other entry |
| KeyedIndex.IndexValue | src/context/LibraryContext.tsx:71 | for each key of the inputs, the folded value is listed, and it is the only listed value carrying that key |
| KeyedIndex.IndexValuesKeys | src/context/LibraryContext.tsx:71 | the listed values carry the `Map`'s keys, in order |
| LibraryMerge.AddOrUpdateBook | src/context/LibraryContext.tsx:57-68 | one `addOrUpdate` call on the book `Map`: a new id is stored, and on a clash the incoming entry replaces the stored one exactly when it supersedes it |
| LibraryMerge.MergeLibraries | src/context/LibraryContext.tsx:55-72 | the loop over primary then secondary returns the merged library, whose ids are the distinct ids of both inputs in order of first appearance |
| LibraryMerge.MergedLibraryIds | src/context/LibraryContext.tsx:55-72 | one entry per distinct id of either input, primary ids first, in order of first appearance |
| LibraryMerge.LatestWins | src/context/LibraryContext.tsx:63-67 | among the entries sharing an id, the merge keeps the first entry holding the latest parsable date; when no date parses it keeps the last entry |
| LibraryMerge.MergedLibraryEntry | src/context/LibraryContext.tsx:55-72 | for every id of either input, the merge lists exactly one entry with that id: the winner of the latest-date rule |
| LibraryMerge.MergeLibraryClash | src/context/LibraryContext.tsx:63-67 | an id present once on each side: the secondary entry is kept exactly when the primary date does not parse or the secondary date parses and is strictly later. Equal dates keep the primary entry; two unparsable dates keep the secondary entry |
| LibraryMerge.MergeLibraryUnclashed | src/context/LibraryContext.tsx:58-61 | an entry whose id occurs nowhere else is kept unchanged and is the only one listed with its id |
| LibraryMerge.AddOrUpdateCabinet | src/context/LibraryContext.tsx:76-89 | one `addOrUpdate` call on the cabinet `Map`: a new id is stored, and a clash stores the merged pair |
| LibraryMerge.MergeCabinets | src/context/LibraryContext.tsx:74-93 | the loop returns the merged cabinets, whose ids are the distinct ids of both inputs in order of first appearance |
| LibraryMerge.MergedCabinetIds | src/context/LibraryContext.tsx:74-93 | one cabinet per distinct cabinet id of either input, in order of first appearance |
| LibraryMerge.MergeCabinetPairFields | src/context/LibraryContext.tsx:82-88 | the merged cabinet on a clash: the stored book ids first, then the incoming ones it lacked, each once, and exactly the union. Its name is the stored name unless empty, else the incoming one; its id and creation date are the incoming ones |
| LibraryMerge.CabinetFold | src/context/LibraryContext.tsx:76-89 | folding the clash rule over all cabinets sharing an id: the union of their book ids without repetition (a lone cabinet is unchanged), the first non-empty name, and the last creation date |
| LibraryMerge.MergedCabinetEntry | src/context/LibraryContext.tsx:74-93 | for every cabinet id of the inputs, the merge lists exactly one cabinet with that id, the fold over the cabinets with that id |
| LibraryMerge.MergeCabinetClash | src/context/LibraryContext.tsx:76-89 | a cabinet id present once on each side: the only cabinet listed with that id is the merged pair |
| LibraryMerge.MergeCabinetUnclashed | src/context/LibraryContext.tsx:78-81 | a cabinet whose id occurs nowhere else is kept unchanged and is the only one listed with its id |
| LibraryMerge.WriteBackOnNewIds | src/context/LibraryContext.tsx:120-122 | with no repeated id in the remote snapshot, the count test triggers the write-back exactly when the local snapshot holds a book id or a cabinet id the remote lacks |
| LibraryMerge.Reconcile | src/context/LibraryContext.tsx:116-122 | loading for a signed-in user: both merges, unique ids in both results, the write-back decided by the count test, and equivalent to "the local side added an id" when the remote has no repeated id |
| LibraryStore.Contains | src/context/LibraryContext.tsx:203-205 | `library.some((b) => b.id === bookId)`: true exactly when some entry has the id |
| LibraryStore.FindIndex | src/context/LibraryContext.tsx:156 | `findIndex`: -1 exactly when the id is absent, otherwise the first index holding it |
| LibraryStore.WithRating | src/context/LibraryContext.tsx:154-171 | the first entry with the book's id is replaced in place by the new entry (read now, the given rating, status read, no sheet), or the new entry is appended when the id is absent |
| LibraryStore.WithRatingIds | src/context/LibraryContext.tsx:154-171 | the ids keep their order, with the book's id appended only when it was absent, so the length grows by one exactly then; the book is present afterwards |
| LibraryStore.WithRatingUnique | src/context/LibraryContext.tsx:154-171 | when the ids were unique they stay unique, and the only entry for the book is the new one, without any earlier sheet |
| LibraryStore.WithSheet | src/context/LibraryContext.tsx:173-191 | every entry with the id gets the sheet stamped with `updatedAt = now` and the earlier `createdAt` when it had a sheet; other entries and the length are unchanged |
| LibraryStore.WithSheetEffect | src/context/LibraryContext.tsx:173-191 | saving keeps every id in place, changes nothing when no entry has the id, and on each matching entry keeps the book, rating, date and status while setting template and answers, `updatedAt = now`, and the earlier (or the argument's) creation date |
| LibraryStore.ResaveKeepsCreation | src/context/LibraryContext.tsx:180 | a second save keeps the creation date the first save gave and takes the new answers and time |
| LibraryStore.WithoutBook | src/context/LibraryContext.tsx:194 | no entry with the id remains; every other entry stays with its multiplicity, and the library does not grow |
| LibraryStore.WithoutBookAppend | src/context/LibraryContext.tsx:194 | the filter distributes over concatenation, so the kept entries keep their order |
| LibraryStore.WithoutBookIds | src/context/LibraryContext.tsx:194 | the remaining ids are the old ids without the removed one, in order |
| LibraryStore.WithoutBookInCabinets | src/context/LibraryContext.tsx:195-200 | every cabinet keeps its id, name and creation date, in order, and loses the removed id from its book ids |
| Seqs.Strip | src/context/LibraryContext.tsx:208 | dropping the leading and trailing elements that satisfy a predicate: a contiguous run of the input with only such elements around it, not starting or ending with one, empty exactly when every element satisfies it |
| Seqs.StripIdempotent | src/context/LibraryContext.tsx:208 | stripping a stripped sequence changes nothing |
| LibraryStore.Trim | src/context/LibraryContext.tsx:208-211 | `name.trim()`: a run of the name with only white space around it, starting and ending with a non-space, empty exactly when the name is all white space |
| LibraryStore.TrimIdempotent | src/context/LibraryContext.tsx:208 | trimming a trimmed name changes nothing |
| LibraryStore.WithCabinet | src/context/LibraryContext.tsx:207-223 | a blank name leaves the cabinets unchanged; otherwise one cabinet with the generated id, the trimmed name, no books and the current time is appended |
| LibraryStore.WithCabinetEffect | src/context/LibraryContext.tsx:207-223 | an all-white-space name changes nothing; otherwise exactly one cabinet is appended after the unchanged ones, with the generated id, no books, and a non-empty name with no white space around it |
| LibraryStore.WithCabinetIds | src/context/LibraryContext.tsx:212-222 | when the generated id is unused, cabinet ids stay unique |
| LibraryStore.MovedInto | src/context/LibraryContext.tsx:227-237 | a cabinet keeps its id, name and creation date and every other book. A cabinet that is not the target holds its ids in order without the moved book; the target holds its other ids in their order, deduplicated, then the moved book exactly once, last. Repetition-free book ids stay repetition-free |
| LibraryStore.Moved | src/context/LibraryContext.tsx:225-239 | the cabinets keep their count and order, each transformed as one cabinet is |
| LibraryStore.MovedIntoTwice | src/context/LibraryContext.tsx:227-237 | moving a book to the same place twice is moving it once |
| LibraryStore.MovedTwice | src/context/LibraryContext.tsx:225-239 | the same idempotence for the whole cabinet list |
| LibraryStore.Store.constructor | src/context/LibraryContext.tsx:154-239 | the store starts with no books and no cabinets, and satisfies its invariant |
| LibraryStore.Store.Load | src/context/LibraryContext.tsx:105-122 | after loading, the fields hold the two merges, ids are unique, and the result says whether the count test asks for a write-back |
| LibraryStore.Store.IsBookInLibrary | src/context/LibraryContext.tsx:203-205 | true exactly when some entry of the library has the id; reads the state and changes nothing |
| LibraryStore.Store.AddToLibrary | src/context/LibraryContext.tsx:154-171 | the library becomes `WithRating` of the old one, cabinets are unchanged, the book is in the library afterwards, and unique ids stay unique |
| LibraryStore.Store.SaveReadingSheet | src/context/LibraryContext.tsx:173-191 | the library becomes `WithSheet` of the old one with the same ids; cabinets are unchanged; the invariant is kept |
| LibraryStore.Store.RemoveFromLibrary | src/context/LibraryContext.tsx:193-201 | the book is gone from the library and from every cabinet, cabinet ids are unchanged, and the invariants are kept |
| LibraryStore.Store.CreateCabinet | src/context/LibraryContext.tsx:207-223 | the cabinets become `WithCabinet` of the old ones, the library is unchanged, and unique ids stay unique when the generated id is unused |
| LibraryStore.Store.MoveBookToCabinet | src/context/LibraryContext.tsx:225-239 | the cabinets become `Moved` of the old ones with the same ids, the library is unchanged, and the invariants are kept |
| TopBooks.Votes | src/app/page.tsx:39-42 | each entry gives at most one vote, and every vote comes from an accepted entry (an id and a numeric rating); see `TopBooks.NoVotes` |
| TopBooks.VotesComplete | src/app/page.tsx:39-42 | every accepted entry gives its vote |
| TopBooks.VotesAppend | src/app/page.tsx:93-97 | the votes of two runs of entries are the votes of each, one after the other |
| TopBooks.TalliedIndex | src/app/page.tsx:35-66 | adding a run of entries to an aggregate built from some votes gives the aggregate built from those votes followed by the run's votes |
| TopBooks.AddLibraryEntries | src/app/page.tsx:35-66 | the loop that sets new tallies and increments existing ones computes the specified aggregate |
| TopBooks.FoldTallies | src/app/page.tsx:43-64 | the tally kept for a book is its first vote's book record with the sum of the stars and the number of votes |
| TopBooks.VotesTotals | src/app/page.tsx:43-64 | the votes of one book id sum to its number of accepted entries and the sum of their ratings |
| TopBooks.NoVoteCount | src/app/page.tsx:39-42 | a book id with no vote has no accepted entry |
| TopBooks.FirstVote | src/app/page.tsx:44-57 | the first vote for a book id comes from the first accepted entry with that id |
| TopBooks.AggregateAt | src/app/page.tsx:35-66 | an id is in the aggregate exactly when some accepted entry has it; its vote count is the number of such entries, its total the sum of their ratings, and its book record (authors defaulting to none) comes from the first of them |
| TopBooks.Insert | src/app/page.tsx:110-115 | one insertion step of the sort: one longer, the same tallies plus the new one, and still ordered |
| TopBooks.SortByScore | src/app/page.tsx:110-115 | the sort is a permutation of its input, ordered by total stars descending, ties by vote count descending |
| TopBooks.TopThree | src/app/page.tsx:116 | `slice(0, 3)`: a prefix of length min(3, n) |
| TopBooks.RankAggregateTop | src/app/page.tsx:103-116 | the ranking lists min(3, n) of the aggregate's n tallies, in ranking order, and no tally left out sorts ahead of a listed one |
| TopBooks.AggregateDocs | src/app/page.tsx:93-97 | walking the documents in turn builds the aggregate of all their votes |
| TopBooks.LoadTopBooks | src/app/page.tsx:68-140 | the loader ranks the remote votes, falls back to the local library only when the remote aggregate is empty, and after a failure adds the local votes to what was aggregated before it |
| TopBooks.LocalOnlyAsFallback | src/app/page.tsx:99-101 | when some remote entry is a vote, the local library does not affect the ranking; when none is, the ranking is that of the local votes alone |
| TopBooks.NoVotes | src/app/page.tsx:39-42 | entries none of which is accepted give no vote |
| LibraryPage.Lookup | src/app/library/page.tsx:41 | `bookMap.get(id)`: none exactly when no entry has the id, otherwise the last entry with the id |
| LibraryPage.LookupUnique | src/app/library/page.tsx:41 | with unique ids, looking up a book's id finds that book's entry |
| LibraryPage.Resolve | src/app/library/page.tsx:44-46 | a cabinet's books: no more than its ids, each the entry found for one of its ids |
| LibraryPage.Known | src/app/library/page.tsx:45-46 | an id is kept exactly when the cabinet lists it and some library entry has it |
| LibraryPage.ResolveIds | src/app/library/page.tsx:43-46 | the ids of a cabinet's resolved books are exactly its known ids, in `bookIds` order, so ids with no entry are dropped |
| LibraryPage.Shelved | src/app/library/page.tsx:43-49 | the cabinet list has the same count and order as the input, each cabinet with its resolved books |
| LibraryPage.ResolvedIds | src/app/library/page.tsx:47 | the ids a cabinet adds to the assigned set are its ids that have a library entry |
| LibraryPage.AssignedAre | src/app/library/page.tsx:42-49 | an id is assigned exactly when some cabinet lists it and the library has an entry for it |
| LibraryPage.Unassigned | src/app/library/page.tsx:51 | the unassigned list holds exactly the library entries whose id is not assigned, and no entry more often than the library does |
| LibraryPage.UnassignedAppend | src/app/library/page.tsx:51 | the filter distributes over concatenation, so it keeps library order |
| LibraryPage.Partition | src/app/library/page.tsx:40-54 | the loop collecting the assigned ids returns the specified cabinet list and the library filtered by the assigned ids |
| LibraryPage.BookIdSet | src/app/library/page.tsx:47 | the ids added to `assignedIds` for a list of entries are exactly the ids of those entries |
| LibraryPage.NeverBoth | src/app/library/page.tsx:41-51 | a book listed as unassigned is among no cabinet's books |
| LibraryPage.EitherPlace | src/app/library/page.tsx:41-51 | with unique ids, every library entry is unassigned or among some cabinet's books |
| LibraryPage.Render | src/app/library/page.tsx:17-54 | the empty state shows exactly when the library is empty; otherwise the page shows the library's length as the book count, with the partition |
| ReadingSheets.FieldIds | src/constants/readingSheets.ts:3-9 | the ids of a template's fields, in order |
| ReadingSheets.RatingIds | src/constants/readingSheets.ts:1-9 | an id is listed exactly when a field of the template has it and is typed as a rating |
| ReadingSheets.EssaiTemplate | src/constants/readingSheets.ts:11-63 | the essay template has 10 fields with distinct ids, and its only rating field is `note_globale` |
| ReadingSheets.RomanTemplate | src/constants/readingSheets.ts:65-111 | the novel/history template has 9 fields with distinct ids and no rating field |
| BookDetailTabs.FieldsForType | src/components/BookDetailTabs.tsx:15-23 | `essai` gets the essay template, `roman_histoire` the novel/history template, any other type the free-form template |
| BookDetailTabs.SheetLabels | src/components/BookDetailTabs.tsx:25-33 | the three labels are `Essai`, `Roman / Histoire` and `Fiche libre`, and different templates get different labels |
| BookDetailTabs.RenderDescription | src/components/BookDetailTabs.tsx:35-38 | a present non-empty description is shown as is; a missing or empty one is replaced by the fixed text; the result is never empty |
| BookDetailTabs.InitialResponses | src/components/BookDetailTabs.tsx:52-55 | the starting answers have exactly the template's field ids as keys, each mapped to the empty string |
| BookDetailTabs.InitialResponsesSize | src/components/BookDetailTabs.tsx:52-55 | a template with distinct ids starts with one answer per field |
| BookDetailTabs.InitialEditor | src/components/BookDetailTabs.tsx:44-46 | the editor starts on the summary tab with no template chosen and no answers |
| BookDetailTabs.StartSheet | src/components/BookDetailTabs.tsx:51-58 | starting a sheet chooses the template and blanks one answer per field id, leaving the tab as it was |
| BookDetailTabs.SaveSheet | src/components/BookDetailTabs.tsx:60-74 | without a chosen template nothing changes and nothing is saved. Otherwise the saved sheet has the template, the current answers and `createdAt = updatedAt = now`; the choice is cleared and the sheet tab selected |
| BookDetailTabs.DisplayValue | src/components/BookDetailTabs.tsx:130-133 | a missing or empty answer shows `Non renseigné`, a filled rating shows `<v> / 5`, any other filled answer shows verbatim; never empty |
| BookDetailTabs.Displayed | src/components/BookDetailTabs.tsx:130-133 | a saved sheet shows one text per field of its template, in order |
| BookDetailTabs.RomanShowsVerbatim | src/components/BookDetailTabs.tsx:130-133 | every filled answer of a novel/history sheet is shown as written, since that template has no rating |
| BookDetailTabs.SavedBlankSheet | src/components/BookDetailTabs.tsx:51-74 | starting a sheet and saving it untouched leaves on the book's entry a sheet of that template, updated when the store saved it, whose answers are the template's ids and whose every field shows `Non renseigné` |
| GoogleBooks.ReplaceFirst | src/services/googleBooks.ts:43 | `s.replace(pat, rep)` with a string pattern: the first occurrence is replaced, and without an occurrence the string is unchanged |
| GoogleBooks.UpgradeToHttps | src/services/googleBooks.ts:43 | a link starting with `http:` comes out as `https:` followed by the rest |
| GoogleBooks.ReplaceKeepsContent | src/services/googleBooks.ts:43 | the replacement never turns a non-empty link into an empty one |
| GoogleBooks.FindIsbn13 | src/services/googleBooks.ts:44 | `find((i) => i.type === 'ISBN_13')`: none exactly when no identifier has that type, otherwise the first that has it |
| GoogleBooks.IsbnChoice | src/services/googleBooks.ts:44 | the ISBN is the first ISBN-13 entry's identifier when it is a non-empty string; else the first identifier's value (even when a later ISBN-13 entry has one); none without identifiers |
| GoogleBooks.FormatBookData | src/services/googleBooks.ts:36-50 | id, title, date, page count, categories and publisher are copied. Missing authors become `Auteur inconnu` and a present list is kept, even empty. A missing or empty description becomes the fixed text. The thumbnail has its first `http:` replaced and is none when missing or empty. The ISBN follows the rule above |
| GoogleBooks.SecureThumbnail | src/services/googleBooks.ts:43 | a thumbnail starting with `http:` is served as `https:` followed by the rest |
| GoogleBooks.SearchBooks | src/services/googleBooks.ts:5-19 | an empty query sends no request and returns no books. A failed request or a body without items returns no books. Otherwise each item is normalised, in order |
| Login.RedirectPath | src/app/login/page.tsx:11-15 | the path always starts with `/` and never with `//`; a raw value of that form is kept, and anything else (absent, empty, other) gives `/` |
| Login.RedirectPathIdempotent | src/app/login/page.tsx:12-15 | sanitising a sanitised path changes nothing |
| Login.NavigationTarget | src/app/login/page.tsx:17-21 | navigation happens exactly when a user is present, to a site path that is never `/login` (which maps to `/`), and otherwise to the sanitised path |

## Left out

- Reading and writing the remote document store and the browser's local storage, and parsing the stored JSON, are I/O. The snapshots are inputs, and the persistence effect after each mutation is not modelled.
- The asynchronous load is not modelled: its error fallback to the local snapshots, the signed-out branch that only reads local storage, and the race in which a late load overwrites a newer session's state. `LibraryStore.Store.Load` models the signed-in, successful-read branch only.
- `Date.parse` and `new Date().toISOString()`: read dates are optional integers (none for a date that does not parse), and the clock is a `now` parameter. Sheet and cabinet timestamps are plain integers, not ISO strings.
- The random cabinet id comes in as a parameter. `LibraryStore.Store.CreateCabinet` keeps unique cabinet ids only when that id is unused, which the model cannot guarantee for a random value.
- The average rating and its formatting are floating point, so they are left out; so is the random animal emoji of the library page.
- `LIBRE_FIELDS` (`src/constants/readingSheets.ts`) is not modelled; the free-form template's fields come in as the parameter `libreFields`. The sheet type is three-valued, with `Libre` standing for every type other than the two built-in ones.
- TopBooks.SortByScore: proved a permutation and ordered by the comparator, but not proved stable. The JavaScript sort keeps equal tallies in `Map` order. The insertion sort used here keeps that order too, but no lemma states it.
- A stored library entry that is `null` or not an object is not represented; an entry with a missing or empty id is written with the id `""`. The JavaScript `Map` in the merges keeps an `undefined` key apart from a `""` key, while the model merges such entries into one.
- Non-numeric ratings are modelled as missing; a numeric rating that is not an integer is not represented.
- The catalog's `title` is taken as present. A non-string value in a field read through `||` (an identifier that is a number, say) is not represented, and neither is a volume without `volumeInfo`.
- `fetch`, `encodeURIComponent`, the catalog's `getBookById`, rendering, routing, and drag-and-drop events are left out. The catalog's answer to a search is a parameter.
- Sign-in itself, the authentication loading flag and the router are left out; the navigation target is returned instead of performed.
