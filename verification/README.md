# The Book Diaries, modelled in Dafny

This project models the logic inside the two iOS apps of "The Book Diaries". The reader app is `DemoApp`; the staff companion app is `PaperAndInk`. Every piece is stated as immutable data and pure functions, with contracts and lemmas about what each operation promises. The modelled parts are:

- **Catalog books:** equality by id, and the conversion from a stored record.
- **The persistent store:** books, reading logs and monthly picks. It is modelled as three sequences, and a log refers to its book by index (object identity).
- **The reading tracker:** reload, progress, add, remove, "is read", recent reads, and the month and year filters.
- **The daily book service:** the seed pool with its bundled fallback, and the book of the day chosen from a day-key hash.
- **Collections, the reading list and ISBN cleaning.**
- **The two book lookups:** Open Library and Google Books, taken from the moment their replies are in.
- **The bulk barcode scanning session, and the monthly-pick editor with the calendar challenge service behind it.**
- **The add-reading-log form and the reading tracker screen.**
- **The discover screen:** today's pick, the monthly card and the shuffled rows.
- **The seed importer, the reader home screen's goal, greeting, "% Complete" line and recent activity, and the weekly book with its per-week cache.**
- **The cover fallback chain, the donation service, user roles, and the role switch on both settings screens.**

The following are parameters rather than computations:

- Swift's `hashValue`, the clock and its calendar components.
- `UUID()` values; the scan session draws item ids from a counter.
- `shuffled()` and `randomElement()`.
- The simulated payment server's coin toss.
- Percent-encoding.
- Localized case-insensitive matching.
- Every network reply, given as `Reply<T> = Failed(description) | Received(value)`.

Asynchronous work is taken at the point where its main-queue update runs.

Modules:

- `Common`: Option, Filter, Count, offsets.
- `Text`: join, integer printing and parsing, replace.
- `Books`, `BookStore`, `ReadingTracker`, `DailyBooks`, `Collections`, `ReadingList`, `Isbn`.
- `OpenLibrary`, `GoogleBooks`, `ScanSession`, `CalendarChallenge`, `MonthlyPickEditor`.
- `ReadingLogForm`, `TrackerScreen`, `Discover`, `SeedImporter`, `ReaderHome`.
- `WeeklyPick`, `CoverFallback`, `Donations`, `Roles`, `RoleSettings`.

## Model

| member | source | states |
|---|---|---|
| Books.SameBookIsIdEquality | DemoApp/Models/Book.swift:22-24 | two books are `==` exactly when their ids are equal, and the relation is symmetric |
| Books.SameBookIsEquivalence | PaperAndInk/Models/Book.swift:22-24 | id equality is reflexive, symmetric and transitive, so `contains` and `==` behave as an equivalence |
| Books.SameBookIgnoresOtherFields | PaperAndInk/Models/Book.swift:22-24 | changing a title, author or any field other than the id never changes equality |
| Books.ContainsIsIdMembership | DemoApp/Models/Book.swift:22-24 | `books.contains(b)` holds exactly when `b.id` is among the ids of the array |
| Books.ToBook | PaperAndInk/Models/Book.swift:29-41 | a stored record becomes a book: the stored id is kept, and a missing one is replaced by the fresh UUID. A missing title is "Unknown Title" and missing authors are ["Unknown Author"]. The page count is present exactly when the stored count is positive. Description, thumbnail, categories and age range pass through |
| BookStore.CreateBook | DemoApp/Models/CoreDataManager.swift:43-61 | returns the first stored book with the id if one exists, with the store unchanged; otherwise appends one new record at the end. Logs and picks are untouched and log references stay valid |
| BookStore.CreateBookIdempotent | DemoApp/Models/CoreDataManager.swift:43-61 | creating a book twice, or a second book with the same id, leaves one record and returns the same handle |
| BookStore.CreateBookRoundTrip | DemoApp/Models/CoreDataManager.swift:43-61 | converting a freshly created record back gives the original book, except that a non-positive page count reads back as absent |
| BookStore.AddReadingLog | DemoApp/Models/CoreDataManager.swift:80-88 | appends exactly one log for the given book, finish date, notes and id; books and picks are unchanged |
| BookStore.SortNewestFirst | DemoApp/Models/CoreDataManager.swift:90-94 | the result is a permutation of the input ordered by finish date descending, with missing dates last |
| BookStore.FetchReadingLogs | DemoApp/Models/CoreDataManager.swift:90-94 | every stored log, each exactly once, newest first |
| BookStore.FetchReadingLogsFor | DemoApp/Models/CoreDataManager.swift:96-101 | exactly the logs of that book, newest first, and the same list as filtering the full fetch |
| BookStore.FilterOfSort | DemoApp/Models/CoreDataManager.swift:90-101 | sorting then filtering equals filtering then sorting, which ties the per-book fetch to the full fetch |
| BookStore.FetchAfterAdd | DemoApp/Models/CoreDataManager.swift:80-94 | after adding a log, the full fetch holds the old logs plus exactly the new one |
| BookStore.FetchMonthlyBook | DemoApp/Models/CoreDataManager.swift:126-130 | the result is a stored pick of that month name and year; it is absent exactly when no pick of that slot exists |
| BookStore.FetchCurrentMonthlyBook | DemoApp/Models/CoreDataManager.swift:132-139 | the fetch for the clock's month name and year |
| BookStore.DeleteFirstInSlot | DemoApp/Models/CoreDataManager.swift:107-112 | removes one record when the slot has one, and every record of other slots survives |
| BookStore.SetMonthlyBook | DemoApp/Models/CoreDataManager.swift:105-124 | the new pick is stored last, one earlier record of its slot is replaced, other slots keep their records, and books and logs are unchanged |
| BookStore.SetMonthlyBookOtherSlot | DemoApp/Models/CoreDataManager.swift:105-130 | writing one month's pick changes neither the records nor the fetch of any other month and year |
| BookStore.SetThenFetch | DemoApp/Models/CoreDataManager.swift:105-130 | with one record per slot, the next fetch of the written slot returns exactly the written pick |
| BookStore.SetMonthlyBookKeepsUnique | DemoApp/Models/CoreDataManager.swift:105-124 | writing a pick with a month keeps every slot at one record or fewer |
| BookStore.DeleteEmptiesSlot | DemoApp/Models/CoreDataManager.swift:107-112 | with at most one record in a slot, deleting its first record empties the slot |
| BookStore.DeleteKeepsOtherSlot | DemoApp/Models/CoreDataManager.swift:107-112 | deleting in one slot leaves every other slot's records and their order unchanged |
| ReadingTracker.Ratio | DemoApp/Services/ReadingTrackerService.swift:22 | the ratio is 0 for a non-positive total; otherwise ratio × total = read |
| ReadingTracker.RatioBounds | DemoApp/Services/ReadingTrackerService.swift:22 | for 0 ≤ read ≤ total the ratio lies in [0, 1], and it is 1 exactly when everything is read |
| ReadingTracker.NewChecklistProgress | DemoApp/Services/ReadingTrackerService.swift:18-23 | read + unread = total, the percent is read/total (0 for an empty total), and it stays in [0, 1] with unread ≥ 0 when read ≤ total |
| ReadingTracker.ChecklistNotClamped | DemoApp/Services/ReadingTrackerService.swift:18-23 | when more books are read than the total, the percent exceeds 1 and the unread count is negative; nothing clamps them |
| ReadingTracker.UpdateProgress | DemoApp/Services/ReadingTrackerService.swift:102-109 | the total read is the number of loaded logs, and progress × seed count = logs (0 with no seeds). The checklist carries the same figures; the logs are unchanged |
| ReadingTracker.LoadReadingLogs | DemoApp/Services/ReadingTrackerService.swift:47-62 | after a reload the published logs are a newest-first permutation of the store's logs, loading is off, the error is clear and progress is recomputed |
| ReadingTracker.AddReadingLog | DemoApp/Services/ReadingTrackerService.swift:64-73 | the book is found or created by id (existing books kept in place) and the store gains exactly one log at the end, pointing at that stored book with the given date, notes and id; the tracker is reloaded, the read count grows by one and picks are unchanged |
| ReadingTracker.RemoveReadingLog | DemoApp/Services/ReadingTrackerService.swift:75-79 | the stored logs become exactly those without the id, each once and in their order (read at the matching indices); books and picks are unchanged and the tracker is reloaded |
| ReadingTracker.RemoveIsRemoveAtOffsets | DemoApp/Services/ReadingTrackerService.swift:75-79 | removing by id equals `remove(atOffsets:)` at the positions of the logs with that id |
| ReadingTracker.RemoveUniqueId | DemoApp/Services/ReadingTrackerService.swift:75-79 | with distinct log ids, removing by a present id drops exactly one log |
| ReadingTracker.AddAndRemoveCounts | DemoApp/Services/ReadingTrackerService.swift:64-79 | adding raises the read count by one; removing a present log lowers it by one |
| ReadingTracker.IsBookRead | DemoApp/Services/ReadingTrackerService.swift:81-84 | asking creates the book in the store if missing, and answers true exactly when some log refers to that stored book |
| ReadingTracker.ReadAfterAdd | DemoApp/Services/ReadingTrackerService.swift:64-84 | after logging a book, any book with the same id is reported read |
| ReadingTracker.NothingReadWithoutLogs | DemoApp/Services/ReadingTrackerService.swift:81-84 | with no logs every book is unread |
| ReadingTracker.GetReadingLogs | DemoApp/Services/ReadingTrackerService.swift:86-89 | the logs of the (created) book, newest first; the list is non-empty exactly when the book is read |
| ReadingTracker.HasReadBooksAfterLoad | DemoApp/Services/ReadingTrackerService.swift:113-115 | after a reload, "has read books" holds exactly when the store holds a log |
| ReadingTracker.RecentReads | DemoApp/Services/ReadingTrackerService.swift:117-119 | the first min(5, n) logs of the newest-first list, in order |
| ReadingTracker.BooksReadSince | DemoApp/Services/ReadingTrackerService.swift:121-141 | this month's and this year's lists: exactly the loaded logs with a finish date at or after the start of the period, each once and in loaded order; undated logs never appear |
| ReadingTracker.BooksReadSinceAppend | DemoApp/Services/ReadingTrackerService.swift:121-141 | one more loaded log extends the list at the end exactly when it was finished in the period |
| ReadingTracker.MonthWithinYear | DemoApp/Services/ReadingTrackerService.swift:121-141 | with the month starting inside the year, this month's list is this year's list filtered again, so it is a sub-list and no longer |
| DailyBooks.PickIndex | DemoApp/Services/DailyBookService.swift:43-44 | `abs(seed) % count` is a valid index into the pool |
| DailyBooks.GetBookForDate | DemoApp/Services/DailyBookService.swift:96-108 | nil exactly for an empty pool; otherwise the pool's book at index `abs(hash(dayKey)) % count` |
| DailyBooks.SameHashSameBook | DemoApp/Services/DailyBookService.swift:96-108 | the book depends on the day only through the hash of its key: two keys with the same hash, such as two moments of one day, get the same book |
| DailyBooks.SameBookIffSameRemainder | DemoApp/Services/DailyBookService.swift:104-107 | in a pool without repeats, two days get the same book exactly when `abs(hash) % count` agrees |
| DailyBooks.DefaultSeedBooks | DemoApp/Services/DailyBookService.swift:76-84 | five built-in books with ids "1" to "5", each with a positive page count |
| DailyBooks.DefaultSeedIdsDistinct | DemoApp/Services/DailyBookService.swift:76-84 | the five fallback ids are pairwise distinct |
| DailyBooks.SeedsFrom | DemoApp/Services/DailyBookService.swift:59-74 | the decoded books when the resource decodes; otherwise the five defaults |
| DailyBooks.LoadDailyBook | DemoApp/Services/DailyBookService.swift:28-51 | with an empty pool it only reloads the seeds and picks nothing. Otherwise it keeps the pool, picks the date's book, clears loading and clears the error |
| DailyBooks.RefreshDailyBook | DemoApp/Services/DailyBookService.swift:53-55 | refreshing is loading again |
| DailyBooks.Init | DemoApp/Services/DailyBookService.swift:21-24 | the initializer installs the seed pool; a book of the day exists exactly when the pool is non-empty, and it is the date's book |
| DailyBooks.FallbackAlwaysHasBook | DemoApp/Services/DailyBookService.swift:59-84 | a missing or broken resource still yields five seeds and a book of the day |
| DailyBooks.ReloadSameDayIsStable | DemoApp/Services/DailyBookService.swift:28-51 | loading twice on the same day gives the same state as loading once |
| DailyBooks.EmptyPoolNeedsSecondLoad | DemoApp/Services/DailyBookService.swift:28-33 | with an empty pool the first load only fills the pool; the book appears on the next load |
| Collections.AppendIfAbsent | DemoApp/ViewModels/CollectionViewModel.swift:26-28 | the book is contained afterwards, nothing changes if its id was present, otherwise it is appended once, and distinct ids stay distinct |
| Collections.AppendIfAbsentIdempotent | DemoApp/ViewModels/CollectionViewModel.swift:26-28 | appending the same book, or one with its id, twice is appending it once |
| Collections.FetchBook | DemoApp/ViewModels/CollectionViewModel.swift:21-31 | a found book is appended at the end only when no book with its id is listed, otherwise the list is unchanged; nil leaves everything alone |
| Collections.AddCollection | DemoApp/ViewModels/CollectionViewModel.swift:33-37 | a new empty collection is added only if no collection has the name; names stay unique and book lists stay duplicate-free |
| Collections.AddCollectionIdempotent | DemoApp/ViewModels/CollectionViewModel.swift:33-37 | adding a name twice equals adding it once, whatever id the second call draws |
| Collections.AddBookToCollection | DemoApp/ViewModels/CollectionViewModel.swift:39-49 | the first collection with the id gains the book unless its id is already there; with no such collection a new "Default" collection holding the book is appended |
| Collections.RepeatedMissesDuplicateDefault | DemoApp/ViewModels/CollectionViewModel.swift:39-49 | two additions to a missing collection id create two separate "Default" collections |
| Collections.RemoveAtOffsetsKeepsDistinct | DemoApp/ViewModels/CollectionViewModel.swift:51-54 | removing offsets from a duplicate-free list keeps it duplicate-free |
| Collections.RemoveBooks | DemoApp/ViewModels/CollectionViewModel.swift:51-54 | the first collection with the id keeps exactly the books at the positions not in the offsets, in order; every other collection is unchanged |
| Collections.RemoveNoBooks | DemoApp/ViewModels/CollectionViewModel.swift:51-54 | removing no offsets changes nothing |
| Collections.RemoveAllBooks | DemoApp/ViewModels/CollectionViewModel.swift:51-54 | removing every position empties the collection and leaves the others alone |
| Collections.DeleteCollections | DemoApp/ViewModels/CollectionViewModel.swift:56-58 | exactly the collections at the offsets are dropped and the rest keep their order |
| Collections.DeleteNothing | DemoApp/ViewModels/CollectionViewModel.swift:56-58 | deleting no offsets changes nothing |
| ReadingList.IsInIsContains | PaperAndInk/Services/ReadingListService.swift:34-36 | membership by id is exactly `contains` under the id-only `==` |
| ReadingList.AddToReadingList | PaperAndInk/Services/ReadingListService.swift:23-27 | the book is in the list afterwards, appended at the end only if its id was absent, and ids stay distinct |
| ReadingList.RemoveFromReadingList | PaperAndInk/Services/ReadingListService.swift:29-32 | the list becomes exactly the entries with other ids, each once and in order; an absent book changes nothing and ids stay distinct |
| ReadingList.RemoveIsRemoveAtOffsets | PaperAndInk/Services/ReadingListService.swift:29-32 | removing a book equals `remove(atOffsets:)` at the positions of the entries with its id |
| ReadingList.RemoveKeepsOtherIds | PaperAndInk/Services/ReadingListService.swift:29-32 | removing one id leaves the membership of every other id unchanged |
| ReadingList.ToggleReadingListStatus | PaperAndInk/Services/ReadingListService.swift:38-44 | membership of the toggled id flips and membership of every other id is unchanged |
| ReadingList.ToggleTwiceRestoresMembership | PaperAndInk/Services/ReadingListService.swift:38-44 | toggling twice restores the membership of every id |
| ReadingList.ToggleTwiceMovesToEnd | PaperAndInk/Services/ReadingListService.swift:38-44 | toggling the first entry twice moves it to the end, so the list itself is not restored |
| Isbn.CleanISBN | DemoApp/Services/OpenLibraryService.swift:48 | the result holds only `[0-9X]` characters, keeps every such input character, and is no longer than the input |
| Isbn.CleanKeepsCleanText | DemoApp/Models/BookAPI.swift:79 | text already made of `[0-9X]` is unchanged |
| Isbn.CleanIdempotent | DemoApp/Services/OpenLibraryService.swift:48 | cleaning twice is cleaning once |
| Isbn.CleanDropsSeparator | DemoApp/Services/OpenLibraryService.swift:48 | a separator between two groups vanishes and the groups are cleaned independently |
| OpenLibrary.CoverURL | DemoApp/Services/OpenLibraryService.swift:151-154 | a cover address exists exactly when a cover id does, and it is the medium-size address for that id |
| OpenLibrary.CoverURLRoundTrip | DemoApp/Services/OpenLibraryService.swift:151-154 | the cover id can be read back from the address |
| OpenLibrary.IsbnKey | DemoApp/Services/OpenLibraryService.swift:71 | the response key is "ISBN:" followed by the cleaned ISBN |
| OpenLibrary.FromOpenLibrary | DemoApp/Services/OpenLibraryService.swift:74-84 | key, title, description, pages and subjects pass through, authors default to ["Unknown Author"], and a thumbnail exists exactly when a first cover exists, in which case it is the first cover's address |
| OpenLibrary.ThumbnailIsFirstCover | DemoApp/Services/OpenLibraryService.swift:79 | the first cover id is read back from the thumbnail address, whatever the other covers are |
| OpenLibrary.FetchBookByISBN | DemoApp/Services/OpenLibraryService.swift:44-99 | an ISBN with nothing left after cleaning gives nil and "Invalid ISBN format". A failed reply gives nil and the failure message. A book is returned exactly when the reply has the ISBN key, built from that entry; loading always ends |
| OpenLibrary.FetchSeesCleanedIsbn | DemoApp/Services/OpenLibraryService.swift:48 | fetching by an ISBN and by its cleaned form give the same result |
| OpenLibrary.FetchFindsEntry | DemoApp/Services/OpenLibraryService.swift:71-84 | a reply holding the entry under the ISBN key yields that entry's book |
| OpenLibrary.FromSearchDoc | DemoApp/Services/OpenLibraryService.swift:119-133 | a search document becomes a book with the same key and title, default authors, a description exactly when the array is non-empty and then its first element, and the cover address of its cover id |
| OpenLibrary.SearchBooks | DemoApp/Services/OpenLibraryService.swift:101-147 | a failed reply gives no books and the failure message; a received one gives one book per document, in order |
| OpenLibrary.SearchKeepsKeys | DemoApp/Services/OpenLibraryService.swift:119-133 | the ids of the results are the documents' keys, in order |
| GoogleBooks.SecureUpgradesHttp | DemoApp/Models/BookAPI.swift:56 | an "http://" thumbnail address becomes "https://" with the rest unchanged |
| GoogleBooks.SecureKeepsOtherAddresses | DemoApp/Models/BookAPI.swift:56 | an address without "http://" is left as it is |
| GoogleBooks.FromVolume | DemoApp/Models/BookAPI.swift:49-62 | id, title, description, pages and categories pass through. Authors default to ["Unknown Author"]. The thumbnail exists exactly when the volume has one, upgraded to https |
| GoogleBooks.SearchBooks | DemoApp/Models/BookAPI.swift:13-74 | a failure or a reply without items gives no books; otherwise one book per item, in order |
| GoogleBooks.FetchBookInfo | DemoApp/Models/BookAPI.swift:77-174 | an empty cleaned ISBN gives nil; otherwise the first item's book, present exactly when the reply has an item |
| GoogleBooks.FetchIsFirstSearchResult | DemoApp/Models/BookAPI.swift:137-160 | the ISBN lookup answers with exactly the first result a search over the same reply would list |
| ScanSession.HandleScannedCode | DemoApp/Views/EnhancedBarcodeScannerView.swift:238-249 | an already scanned ISBN only updates the current code; a new one appends one "scanning" item with a fresh id and starts processing; ids and ISBNs stay distinct |
| ScanSession.UpdateScannedBook | DemoApp/Views/EnhancedBarcodeScannerView.swift:276-287 | the first item with the ISBN gets the new book and status and keeps its added flag and date; the list length and every ISBN are unchanged |
| ScanSession.LookupFinished | DemoApp/Views/EnhancedBarcodeScannerView.swift:254-272 | the first item with that ISBN gets the Open Library book if there is one, else the Google book, else becomes "not found"; every other item, and the whole list when the ISBN is absent, stays as it was; processing ends |
| ScanSession.LookupReplies | DemoApp/Views/EnhancedBarcodeScannerView.swift:250-273 | the session after both lookups answer, built from the two services' results for the scanned code |
| ScanSession.UnreadableCodeNotFound | DemoApp/Views/EnhancedBarcodeScannerView.swift:238-274 | a code with no ISBN characters ends as a "not found" item whatever the services reply |
| ScanSession.MarkAdded | DemoApp/Views/EnhancedBarcodeScannerView.swift:295-304 | the first item with the id is rebuilt from the argument, marked added and given a fresh id; every other item is unchanged, and a missing id changes nothing |
| ScanSession.MarkAddedGivesFreshId | DemoApp/Views/EnhancedBarcodeScannerView.swift:27 | in a valid session the marked item's new id differs from its old one and from every id held before |
| ScanSession.AddToCollection | DemoApp/Views/EnhancedBarcodeScannerView.swift:289-305 | with no selected collection or no book nothing changes; otherwise the book goes into the collection and the item is rebuilt as added under a fresh id |
| ScanSession.AddAllFoundBooksToCollection | DemoApp/Views/EnhancedBarcodeScannerView.swift:307-326 | every found, not-yet-added item is rebuilt as added under a fresh id and its book collected; other items are unchanged, and with no selection nothing changes |
| ScanSession.RemoveScannedBook | DemoApp/Views/EnhancedBarcodeScannerView.swift:328-330 | the list becomes exactly the items with other ids, each once and in order; nothing else in the session changes and it stays valid |
| ScanSession.RemoveScannedIsRemoveAtOffsets | DemoApp/Views/EnhancedBarcodeScannerView.swift:328-330 | removing by id equals `remove(atOffsets:)` at the positions of the items with that id |
| ScanSession.RemoveUndoesAppend | DemoApp/Views/EnhancedBarcodeScannerView.swift:328-330 | removing an item just appended with a fresh id gives back the list before it |
| ScanSession.ClearAllScans | DemoApp/Views/EnhancedBarcodeScannerView.swift:332-334 | the list is emptied |
| ScanSession.RemoveNotFound | DemoApp/Views/EnhancedBarcodeScannerView.swift:598-599 | the list becomes exactly the items not "not found", each once and in order, and shrinks by the not-found count |
| ScanSession.RemoveNotFoundIsRemoveAtOffsets | DemoApp/Views/EnhancedBarcodeScannerView.swift:598-599 | the bulk action equals `remove(atOffsets:)` at the positions of the not-found items |
| ScanSession.HeaderCountsBounded | DemoApp/Views/EnhancedBarcodeScannerView.swift:86-107 | the found, not-found and added counts are each at most the scanned count, and found + not-found is too |
| ScanSession.AddAllThenDisabled | DemoApp/Views/EnhancedBarcodeScannerView.swift:215 | after "add all" with a selected collection, the button is disabled because no found item is left unadded |
| CalendarChallenge.LoadCurrentMonthlyBook | PaperAndInk/Services/CalendarChallengeService.swift:28-42 | the published pick is the store's pick for the clock's month and year; loading ends with no error |
| CalendarChallenge.NewMonthlyBook | PaperAndInk/Services/CalendarChallengeService.swift:53-60 | the record carries the given fields and the clock's month name and year |
| CalendarChallenge.SetMonthlyBook | PaperAndInk/Services/CalendarChallengeService.swift:44-68 | the new pick is stored for the clock's month and published; books and logs are unchanged |
| CalendarChallenge.UpdateMonthlyBook | PaperAndInk/Services/CalendarChallengeService.swift:70-72 | updating is setting |
| CalendarChallenge.DeleteCurrentMonthlyBook | PaperAndInk/Services/CalendarChallengeService.swift:74-83 | with no current pick nothing happens; otherwise that record is deleted, other records stay, and the pick is cleared |
| CalendarChallenge.SetThenLoad | PaperAndInk/Services/CalendarChallengeService.swift:28-68 | a reload after setting finds the pick just set |
| CalendarChallenge.DeleteThenLoad | PaperAndInk/Services/CalendarChallengeService.swift:28-83 | a reload after deleting the current pick finds none |
| MonthlyPickEditor.MethodLabelsDistinct | PaperAndInk/Views/EnhancedMonthlyPickEditor.swift:35-47 | the three selection methods have distinct titles and icons |
| MonthlyPickEditor.NewEditor | PaperAndInk/Views/EnhancedMonthlyPickEditor.swift:32-33 | the editor opens on search, with nothing selected and the clock's month and year |
| MonthlyPickEditor.SelectMonth | PaperAndInk/Views/EnhancedMonthlyPickEditor.swift:173-178 | the month picker sets the month and nothing else |
| MonthlyPickEditor.SelectYear | PaperAndInk/Views/EnhancedMonthlyPickEditor.swift:188-193 | the year picker sets the year and nothing else |
| MonthlyPickEditor.ResetBookSelection | PaperAndInk/Views/EnhancedMonthlyPickEditor.swift:500-510 | every book-selection field is cleared; method, month and year stay |
| MonthlyPickEditor.ChooseMethod | PaperAndInk/Views/EnhancedMonthlyPickEditor.swift:215-218 | choosing a method clears the selection and keeps the month and year |
| MonthlyPickEditor.NothingToSaveAfterSwitch | PaperAndInk/Views/EnhancedMonthlyPickEditor.swift:453-459 | right after switching method, Save is disabled |
| MonthlyPickEditor.StartSearch | PaperAndInk/Views/EnhancedMonthlyPickEditor.swift:461-466 | an empty query does nothing; otherwise searching starts with no results |
| MonthlyPickEditor.SearchFinished | PaperAndInk/Views/EnhancedMonthlyPickEditor.swift:467-472 | the answer replaces the results and stops the spinner |
| MonthlyPickEditor.HandleScannedISBN | PaperAndInk/Views/EnhancedMonthlyPickEditor.swift:475-498 | the Open Library book, else the Google book, becomes the selected and scanned book; with neither only the ISBN is recorded |
| MonthlyPickEditor.EmptyToNone | PaperAndInk/Views/EnhancedMonthlyPickEditor.swift:526-527 | empty text is nil, other text is kept |
| MonthlyPickEditor.SaveFields | PaperAndInk/Views/EnhancedMonthlyPickEditor.swift:512-528 | a selected book supplies title, description, thumbnail and its authors joined with ", "; otherwise the manual title, author, description and cover are sent as typed, with an empty description or cover sent as nil |
| Text.JoinAppend | PaperAndInk/Views/EnhancedMonthlyPickEditor.swift:520 | joining one more author appends the separator and that author to the joined text |
| Text.JoinLength | PaperAndInk/Views/EnhancedMonthlyPickEditor.swift:520 | the joined text is as long as all the parts plus one separator between each neighbouring pair |
| MonthlyPickEditor.ManualSaveHasTitleAndAuthor | PaperAndInk/Views/EnhancedMonthlyPickEditor.swift:453-459 | a manual save that Save allows has a non-empty title and author |
| MonthlyPickEditor.LateScanOverridesManualEntry | PaperAndInk/Views/EnhancedMonthlyPickEditor.swift:475-498 | a scan answering after a switch to manual entry selects its book, and Save then stores that book rather than the typed title |
| MonthlyPickEditor.SaveMonthlyPick | PaperAndInk/Views/EnhancedMonthlyPickEditor.swift:512-538 | Save stores and publishes a pick with the form's title for the clock's month and year |
| MonthlyPickEditor.MonthNamesDistinct | PaperAndInk/Views/EnhancedMonthlyPickEditor.swift:173-178 | different picker months have different month names |
| MonthlyPickEditor.SavedPickIgnoresSelectedMonth | PaperAndInk/Views/EnhancedMonthlyPickEditor.swift:530-535 | as written, a month chosen in the picker is ignored: the selected month's slot is not written |
| MonthlyPickEditor.SaveMonthlyPickForSelection | PaperAndInk/Views/EnhancedMonthlyPickEditor.swift:161-195 | the corrected save stores the pick under the selected month's name and year |
| MonthlyPickEditor.SaveForSelectionThenFetch | PaperAndInk/Views/EnhancedMonthlyPickEditor.swift:512-538 | after the corrected save, fetching the selected month and year returns the saved pick |
| ReadingLogForm.NewForm | DemoApp/Views/AddReadingLogView.swift:15-31 | the form opens on search, with nothing selected, no rating and today's date |
| ReadingLogForm.TapStar | DemoApp/Views/AddReadingLogView.swift:310-312 | tapping star n sets the rating to n unless it was n, in which case it clears to 0; the rating stays in 0..5 |
| ReadingLogForm.TapFillsUpToStar | DemoApp/Views/AddReadingLogView.swift:314-316 | after tapping star n, exactly stars 1..n are drawn filled |
| ReadingLogForm.TapTwice | DemoApp/Views/AddReadingLogView.swift:310-312 | tapping the same star twice from no rating, or from that rating, restores the form |
| ReadingLogForm.ClearRating | DemoApp/Views/AddReadingLogView.swift:321-324 | Clear resets the rating to 0 and nothing else |
| ReadingLogForm.ResetBookSelection | DemoApp/Views/AddReadingLogView.swift:397-405 | every book-selection field is cleared; method, rating, notes and date stay |
| ReadingLogForm.ChooseMethod | DemoApp/Views/AddReadingLogView.swift:101-102 | choosing a method clears the selection but keeps rating and notes |
| ReadingLogForm.TryManualEntry | DemoApp/Views/AddReadingLogView.swift:228-230 | "Try Manual Entry" switches to manual entry without clearing anything |
| ReadingLogForm.ScanAnother | DemoApp/Views/AddReadingLogView.swift:235-238 | "Scan Another" clears the scanned ISBN and the selection only |
| ReadingLogForm.StartSearch | DemoApp/Views/AddReadingLogView.swift:359-363 | an empty query does nothing; otherwise searching starts with no results |
| ReadingLogForm.SearchFinished | DemoApp/Views/AddReadingLogView.swift:365-372 | an answer is applied only if the query has not changed since it was sent |
| ReadingLogForm.StaleAnswerKeepsSpinner | DemoApp/Views/AddReadingLogView.swift:365-372 | an answer to an edited query is dropped and the spinner stays on |
| ReadingLogForm.HandleScannedISBN | DemoApp/Views/AddReadingLogView.swift:376-395 | the Open Library book, else the Google book, is selected; with neither the old selection stays |
| ReadingLogForm.SaveReadingLog | DemoApp/Views/AddReadingLogView.swift:407-435 | there is nothing to save exactly when a non-manual method has no selection. A manual entry builds a new book. The rating is passed only when positive, and notes only when non-empty |
| ReadingLogForm.CanSaveMeansRequest | DemoApp/Views/AddReadingLogView.swift:351-357 | whenever Save is enabled, saving produces a request |
| ReadingLogForm.ManualPagesRoundTrip | DemoApp/Views/AddReadingLogView.swift:417 | a page count typed as an integer is stored as that integer |
| ReadingLogForm.SubmitToTracker | DemoApp/Views/AddReadingLogView.swift:427-432 | with nothing to save the tracker and store are unchanged; otherwise the request's book is logged |
| ReadingLogForm.ManualEntryStoresNewBook | DemoApp/Views/AddReadingLogView.swift:410-432 | each manual save stores a new book record |
| TrackerScreen.FilteredLogs | DemoApp/Views/ReadingTrackerView.swift:153-162 | "All Time" shows every loaded log; "This Year" and "This Month" show the tracker's year and month lists |
| TrackerScreen.FiltersNest | DemoApp/Views/ReadingTrackerView.swift:153-162 | this month's list is no longer than this year's, which is no longer than all time |
| TrackerScreen.UndatedOnlyInAllTime | DemoApp/Views/ReadingTrackerView.swift:153-162 | a log without a finish date appears only under "All Time" |
| TrackerScreen.RowTitle | DemoApp/Views/ReadingTrackerView.swift:189 | the row shows the logged book's title, or "Unknown Book" |
| TrackerScreen.RowByline | DemoApp/Views/ReadingTrackerView.swift:193 | the byline is "by " followed by the joined authors, or "by Unknown Author" when there is no book or the stored book has no authors |
| TrackerScreen.RowShowsLoggedBook | DemoApp/Views/ReadingTrackerView.swift:189-193 | the row of a newly logged book shows its title and author |
| TrackerScreen.RemoveRow | DemoApp/Views/ReadingTrackerView.swift:214-216 | Remove leaves exactly the logs with other ids, each once and in order |
| TrackerScreen.RemoveRowAtIndex | DemoApp/Views/ReadingTrackerView.swift:214-216 | with distinct log ids, removing a row equals `remove(atOffsets:)` of that row's one position |
| TrackerScreen.PickSeedBook | DemoApp/Views/ReadingTrackerView.swift:325-328 | tapping a seed row selects that seed book |
| TrackerScreen.AddFromSheet | DemoApp/Views/ReadingTrackerView.swift:291-298 | with no selection nothing is added; otherwise one log is appended for the stored record of the selected book's id, with the sheet's date and its notes, empty notes sent as nil |
| Discover.LoggedTitle | PaperAndInk/Views/DiscoverView.swift:328 | a log's book title through `toBook()`, with "Unknown Title" for a stored book without one; nil for a log with no book |
| Discover.TitleMatchIgnoresId | PaperAndInk/Views/DiscoverView.swift:326-330 | the card counts as read when any log's book has the pick's title, whatever its id |
| Discover.CardBook | PaperAndInk/Views/DiscoverView.swift:333-343 | the logged book has a fresh id, the pick's title and author with the unknown defaults, and its description and cover |
| Discover.MarkButton | PaperAndInk/Views/DiscoverView.swift:294-298 | a card already read changes nothing; otherwise the card's book (fresh id, defaulted title and author) is created and one log for it, finished now with no notes, is appended |
| Discover.MarkTitledThenRead | PaperAndInk/Views/DiscoverView.swift:294-345 | a pick with a title reads as read after one tap |
| Discover.UntitledPickNeverRead | PaperAndInk/Views/DiscoverView.swift:326-345 | as written, a pick without a title never reads as read, so every tap adds another log |
| Discover.MarkButtonFixed | PaperAndInk/Views/DiscoverView.swift:294-298 | the corrected button: no-op when read under the defaulted title, else one new log |
| Discover.MarkFixedThenRead | PaperAndInk/Views/DiscoverView.swift:326-345 | with the corrected comparison, any pick reads as read after one tap, and a second tap adds nothing |
| Discover.TodaysPick | PaperAndInk/Views/DiscoverView.swift:200-224 | a spinner while loading, the card with its read flag when there is a daily book, and the empty message otherwise |
| Discover.MarkTodaysPick | PaperAndInk/Views/DiscoverView.swift:215-217 | marking today's book adds one log and the card then shows it read |
| Discover.LoadSeedBooks | PaperAndInk/Views/DiscoverView.swift:557-566 | the decoded books, or none at all on any failure |
| Discover.LoaderHasNoFallback | PaperAndInk/Views/DiscoverView.swift:557-566 | unlike the daily service's loader, this one has no five-book fallback |
| Discover.ShuffledPrefix | PaperAndInk/Views/DiscoverView.swift:184 | the first min(n, pool size) books of a shuffle, drawn from the pool without extra copies |
| Discover.Recommendations | PaperAndInk/Views/DiscoverView.swift:178-186 | at most five recommendations, all from the seed pool |
| Discover.PopularBooks | PaperAndInk/Views/DiscoverView.swift:188-192 | at most four popular books, all from the seed pool |
| Discover.RowsHaveNoRepeats | PaperAndInk/Views/DiscoverView.swift:184-191 | a pool without repeats gives rows without repeats |
| SeedImporter.FilteredBooks | DemoApp/Views/SeedImporterView.swift:16-27 | an empty search shows the whole pool; otherwise exactly the pool books whose title or some author matches, each once and in pool order |
| SeedImporter.FilteredBooksAppend | DemoApp/Views/SeedImporterView.swift:16-27 | a book added to the pool shows at the end of the list exactly when it matches or the search is empty; the rows above stay |
| SeedImporter.AuthorMatchFinds | DemoApp/Views/SeedImporterView.swift:21-25 | a book matching by any one author is listed |
| SeedImporter.FilterTwice | DemoApp/Views/SeedImporterView.swift:16-27 | filtering the filtered list again changes nothing |
| SeedImporter.DeleteBooks | DemoApp/Views/SeedImporterView.swift:71-74 | swipe-to-delete leaves the pool as it was |
| SeedImporter.ImportNeverDismisses | DemoApp/Views/SeedImporterView.swift:258-263 | the import message never contains "success", so the sheet is never dismissed by the alert |
| SeedImporter.AddSeedBook | DemoApp/Views/SeedImporterView.swift:293-312 | adding an enabled book leaves the pool as it was |
| SeedImporter.RowRenderStoresBook | DemoApp/Views/SeedImporterView.swift:184 | drawing a seed row for a book not yet stored creates exactly one record, and the book shows unread |
| ReaderHome.Greeting | DemoApp/Views/ReaderHomeView.swift:297-304 | hours 0-11 give "morning", 12-16 "afternoon", and everything else "evening" |
| ReaderHome.GreetingMovesForward | DemoApp/Views/ReaderHomeView.swift:297-304 | within a day the greeting never goes back to an earlier band |
| ReaderHome.BooksToGo | DemoApp/Views/ReaderHomeView.swift:151 | never negative, zero exactly when the goal is reached, and otherwise what is left to the goal |
| ReaderHome.OneMoreBook | DemoApp/Views/ReaderHomeView.swift:151 | each book read lowers the figure by one until it reaches zero |
| ReaderHome.AchievedMeansPoolRead | DemoApp/Views/ReaderHomeView.swift:155 | "goal achieved" shows exactly when the log count reaches the seed pool size, not the reading goal |
| ReaderHome.PercentComplete | DemoApp/Views/ReaderHomeView.swift:147 | `Int(progress * 100)`: the whole part of the percentage, truncated toward zero |
| ReaderHome.PercentAfterReload | DemoApp/Views/ReaderHomeView.swift:147 | after a reload the line shows `100 * logs / seeds` in integer division |
| ReaderHome.RecentActivity | DemoApp/Views/ReaderHomeView.swift:276-287 | at most the first three loaded logs, in loaded order |
| ReaderHome.RecentActivityStartsRecentReads | DemoApp/Views/ReaderHomeView.swift:284 | the three recent rows are the start of the tracker's five recent reads |
| ReaderHome.AchievedWithBooksToGo | DemoApp/Views/ReaderHomeView.swift:151-155 | with five seeds read and the default goal of 10, the screen says both "achieved" and "5 books to go" |
| ReaderHome.OpenEditor | DemoApp/Views/ReaderHomeView.swift:464-467 | the editor starts with the new goal equal to the current one |
| ReaderHome.Increment | DemoApp/Views/ReaderHomeView.swift:491 | "+" raises the goal by one up to 100 |
| ReaderHome.Decrement | DemoApp/Views/ReaderHomeView.swift:491 | "−" lowers the goal by one down to 1 |
| ReaderHome.StepperStaysInRange | DemoApp/Views/ReaderHomeView.swift:491 | the stepper keeps the goal within 1..100, and "+" then "−" undo each other inside the range |
| ReaderHome.OpenThenCloseKeepsGoal | DemoApp/Views/ReaderHomeView.swift:496-511 | saving without stepping keeps the goal, and Cancel after any steps keeps it too |
| ReaderHome.IncrementsKeepGoal | DemoApp/Views/ReaderHomeView.swift:491 | any number of steps leaves the current goal alone and stays in range |
| WeeklyPick.SearchTerm | DemoApp/Views/WeeklyView.swift:81-84 | one lower-case letter, the (week mod 26)-th of the alphabet |
| WeeklyPick.SearchTermPeriodic | DemoApp/Views/WeeklyView.swift:81-84 | two weeks search the same letter exactly when they agree mod 26 |
| WeeklyPick.CacheKey | DemoApp/Views/WeeklyView.swift:89 | the key is "weeklyBook-" followed by the week number |
| WeeklyPick.CacheKeyInjective | DemoApp/Views/WeeklyView.swift:89 | different weeks have different keys |
| WeeklyPick.WeeklyBookFrom | DemoApp/Views/WeeklyView.swift:133-153 | the volume's book as the lookup service builds it, except that the default author is "Unknown" |
| WeeklyPick.FetchWeeklyBook | DemoApp/Views/WeeklyView.swift:110-161 | a book exists exactly when the reply arrived with at least one item, and it is the chosen item's book |
| WeeklyPick.LoadWeeklyBook | DemoApp/Views/WeeklyView.swift:86-108 | without a forced refresh a decodable cached book is shown with no fetch. Otherwise the fetched result is shown and cached only if there is one. Loading always ends |
| WeeklyPick.SecondLoadHitsCache | DemoApp/Views/WeeklyView.swift:86-108 | after a successful fetch, reopening in the same week shows that book without fetching |
| WeeklyPick.ForceRefreshFetches | DemoApp/Views/WeeklyView.swift:86-108 | a forced refresh always fetches and shows what it fetched |
| WeeklyPick.OtherWeeksUntouched | DemoApp/Views/WeeklyView.swift:102-105 | loading one week never touches another week's cache entry |
| CoverFallback.GoogleCoverURL | DemoApp/Views/BookCoverView.swift:30 | the Google Books front-cover address is the fixed prefix followed by the book id, then a longer size query |
| CoverFallback.GoogleCoverRoundTrip | DemoApp/Views/BookCoverView.swift:30 | the book id (without '?'), the width and the height are read back exactly from the address |
| CoverFallback.OpenLibraryTitleURL | DemoApp/Views/BookCoverView.swift:35 | the Open Library address is the fixed prefix, the encoded title and "-L.jpg" |
| CoverFallback.OpenLibraryTitleRoundTrip | DemoApp/Views/BookCoverView.swift:35 | the encoded title is read back from the address |
| CoverFallback.PotentialCoverURLs | DemoApp/Views/BookCoverView.swift:19-39 | the candidates in order: the non-empty thumbnail, the Google cover if there is an author, and always the Open Library cover last |
| CoverFallback.TryNextImage | DemoApp/Views/BookCoverView.swift:71-77 | moves to the next candidate while there is one, else marks the load failed, and keeps the index in range |
| CoverFallback.FailuresWalkInOrder | DemoApp/Views/BookCoverView.swift:71-77 | successive failures visit the candidates in order and then stay failed on the last |
| CoverFallback.StaysFailed | DemoApp/Views/BookCoverView.swift:71-77 | once failed, further failures change nothing |
| CoverFallback.FreshViewTriesFirstCandidate | DemoApp/Views/BookCoverView.swift:43 | every book has a candidate, so a fresh view never starts on the placeholder |
| CoverFallback.PlaceholderAfterAllFail | DemoApp/Views/BookCoverView.swift:43-77 | after n failures candidate n is loading; the placeholder shows exactly when n reaches the number of candidates |
| Donations.DescriptionsDistinct | PaperAndInk/Services/DonationService.swift:11-32 | each error has its own description |
| Donations.MakeDonation | PaperAndInk/Services/DonationService.swift:55-104 | a non-positive amount fails first, then an empty token; both leave processing on. An approved payment records a successful result with the amount, time and transaction id. A refused one publishes the server error and keeps the previous result |
| Donations.RejectionKeepsProcessing | PaperAndInk/Services/DonationService.swift:56-68 | a rejected input leaves the spinner on |
| Donations.DonateWithApplePay | PaperAndInk/Services/DonationService.swift:106-110 | an Apple Pay donation is a donation with a generated token, so it never fails for the token |
| Donations.DonateWithStripe | PaperAndInk/Services/DonationService.swift:112-114 | a Stripe donation uses the method id as the token, so an empty id fails as a bad token |
| Donations.TotalDonated | PaperAndInk/Services/DonationService.swift:131-134 | the total is the last result's amount if it succeeded, else 0 |
| Donations.ApprovedDonationSummaries | PaperAndInk/Services/DonationService.swift:76-90 | after an approved donation the total equals that amount, and a donation is "recent" for the next 86,400 seconds |
| Donations.TotalIsNotCumulative | PaperAndInk/Services/DonationService.swift:131-134 | two approved donations total the second amount only |
| Donations.RefusedKeepsSummaries | PaperAndInk/Services/DonationService.swift:91-100 | a refused or rejected donation changes neither the total nor the "recent" flag |
| Roles.FromRawValue | DemoApp/Models/UserRole.swift:10-12 | only "reader" and "staff" decode, each to the role with that raw value |
| Roles.RawValueRoundTrip | DemoApp/Models/UserRole.swift:10-12 | each role reads back as itself, and distinct roles have distinct raw values |
| Roles.DisplayName | DemoApp/Models/UserRole.swift:14-21 | readers show "Reader" and staff show "Staff" |
| RoleSettings.StaffPassword | DemoApp/Views/SettingsView.swift:104 | each app's staff password is non-empty |
| RoleSettings.PasswordsDiffer | PaperAndInk/Views/SettingsView.swift:127 | the two apps' passwords differ |
| RoleSettings.SubmitPassword | DemoApp/Views/SettingsView.swift:103-111 | the right password makes the user staff, any other raises the error, and both clear the field and close the prompt |
| RoleSettings.Step | DemoApp/Views/SettingsView.swift:30-114 | a role changes only through "Reader", "Switch to Reader Mode" or Submit. Becoming staff needs Submit with the right password. The field changes only by typing, Submit or Cancel |
| RoleSettings.PickStaffOnlyPrompts | DemoApp/Views/SettingsView.swift:94-96 | "Staff" in the role alert only asks for the password |
| RoleSettings.FiveTapsForReadersOnly | PaperAndInk/Views/SettingsView.swift:107-112 | the five-tap gesture opens the prompt for readers only, and never changes the role |
| RoleSettings.SwitchToReaderModeForStaffOnly | PaperAndInk/Views/SettingsView.swift:25-39 | "Switch to Reader Mode" exists only on the companion app, where it makes staff a reader |
| RoleSettings.StaffNeedsPassword | PaperAndInk/Views/SettingsView.swift:126-134 | over any sequence of actions, a reader who ends as staff typed that app's password at some point |
| RoleSettings.ReaderAppStaffPath | DemoApp/Views/SettingsView.swift:30-111 | "Switch Role", "Staff", the password and Submit make a reader staff with the field cleared |
| RoleSettings.CompanionRefusesReaderAppPassword | PaperAndInk/Views/SettingsView.swift:126-134 | the reader app's password is refused on the companion app: the role stays and the error shows |

## Left out

- Networking, Combine publishers, dispatch queues and JSON decoding. A reply is a `Reply` value given as a parameter, and each asynchronous update is applied in one step.
- URL construction and its "Invalid URL" branches. Swift's `URL(string:)` is not modelled; every address built here is taken as valid.
- Percent-encoding (`addingPercentEncoding`) and localized case-insensitive `contains` are function parameters; no Unicode case folding is modelled.
- Swift's `hashValue` is a parameter, since its seed changes per process. `HashFits` requires the hash not to be `Int.min`, on which `abs` traps.
- The `price` field of `Book` (a `Double`), currency formatting (`formatAmount`) and the two-second simulated delay of the donation service.
- Core Data's 32-bit `pageCount` and `year` truncation. Integers are unbounded here.
- Core Data pending-change semantics: the store is plain sequences, and a save is the state after the write. The order of logs with equal finish dates is a choice of the model, since the fetch does not fix it.
- User defaults and `@AppStorage` are values passed in and returned. The weekly cache is a map from key to an optional book, where `None` stands for an entry that does not decode.
- Randomness: `shuffled()` is a permutation given as a parameter, `randomElement()` an index parameter, and `UUID()` values are parameters.
- ReadingLogForm.SaveReadingLog: the rating is computed, but the tracker's `addReadingLog` has no rating parameter, so the rating never reaches the store.
- `ScanStatus.error` is never assigned anywhere in the scanner, so only scanning, found and not found occur.
- Debug prints, themes, export to CSV, "Clear All Data", feedback mail, and the companion app's role alert. That alert is declared but nothing in the settings screen ever sets it to show.
- `updateReadingGoal` and the staff analytics screens are outside the modelled core.
- ReaderHome.Increment: SwiftUI's `Stepper` clamps to its range; the model states that clamp directly rather than modelling the control.
- ReadingTracker.NewChecklistProgress: the percent is a `real`, not a `Double`, so floating-point rounding is not modelled.
- Donations.MakeDonation: the amount is a `real` standing for `Decimal`; decimal precision limits are not modelled.
- ReaderHome.PercentComplete: progress is a `real`, so `Double` rounding before the truncation is not modelled.
- ReaderHome.PercentAfterReload: states exact integer division; with `Double` the source can show one less, e.g. 29 of 100 books gives `Int(0.29 * 100)` = 28 because 0.29 × 100 is 28.999… in binary floating point.
- DailyBooks.GetBookForDate: the day key stands for the formatted "yyyy-MM-dd" string; date formatting is not modelled.
- Donations.MakeDonation: the result's `Date` timestamp is integer seconds from the clock parameter; calendar dates are not modelled.
- `MyBooksView` and `DailyBookView`: screens outside this model. The services behind them (the reading tracker, collections and the daily book service) are modelled.
- ReaderHome quick actions: buttons that only open other screens, so they hold no logic of their own.
- RoleSettings: the companion app's toolbar "Settings" button (PaperAndInk/Views/SettingsView.swift:98-104) is `.hidden()`, so it cannot be tapped and no event models it.

## Findings

| source | as written | input that shows it | evidently intended | confidence | as-written member | corrected member |
|---|---|---|---|---|---|---|
| PaperAndInk/Views/EnhancedMonthlyPickEditor.swift:530-535 | Save calls `setMonthlyBook`, which stamps the pick with the clock's month and year; the month and year chosen in the picker are never used | any editor whose selected month's name differs from the current month, e.g. selecting March while the clock reads January | the pick is stored for the selected month and year | not executed | MonthlyPickEditor.SavedPickIgnoresSelectedMonth | MonthlyPickEditor.SaveForSelectionThenFetch |
| PaperAndInk/Views/DiscoverView.swift:326-330 | the card compares the logged book's title, defaulted to "Unknown Title", with the pick's optional title, so an untitled pick never matches | a monthly pick whose title is nil: "Mark as Read" stays enabled and each tap logs another book | a pick marked read shows as read, comparing against the same defaulted title that marking stores | not executed | Discover.UntitledPickNeverRead | Discover.MarkFixedThenRead |
