# PriceP client: search results, preferences and history, modelled in Dafny

PriceP is an Android client for a product price-lookup service. It sends a text,
photo or voice query to a search backend, shows the products found with links,
keeps user settings, and logs past queries. This project models three pieces of
its logic:

- **Search results** (`search_results.dfy`, module `SearchResults`).
  `formatServerResponse` turns the server's product list into one text and an
  icon-key→url map. The text holds each product's name and price followed by
  the link marker 🔗. The map records `icon_<index>` ↦ url. The main screen
  splits the text on the marker. It draws every part, and after every part but
  the last it draws a link icon whose click looks up `icon_<index>`. The model
  proves the following. The map holds exactly the keys `icon_0 … icon_{n-1}`.
  Splitting gives n + 1 parts when no name or price contains the marker.
  Every icon drawn resolves to the url of the product whose text sits just
  before it, when no name or price contains the marker. Otherwise the icons
  shift and the extra ones find no url.
- **User preferences** (`user_preferences.dfy`, module `Preferences`). The store
  is a map over two keys, `dark_mode` and `selected_language`. Reads fall back
  to `false` and `"Русский"`. Two writers each set one key. The reset clears the
  map but restores a language that was stored. Pure functions give the reads
  and each operation's new store. The class `UserPreferences` has methods that
  change the map.
- **History** (`history.dfy`, module `History`). `HistoryItem` is an immutable
  record. `HistoryDao` holds the `history_items` table as a sequence of rows.
  It also keeps the largest id ever stored, which SQLite's AUTOINCREMENT
  sequence tracks. Its methods are `Insert`, `GetAllHistoryItems` (ordered by
  timestamp, most recent first) and `ClearHistory`.

`wrappers.dfy` holds the `Option` type that stands for Kotlin's nullable values.

Some behaviour lives in the Room and SQLite libraries rather than in the
repository's own files. The model states it explicitly:
- `@Insert` without a conflict strategy aborts when the primary key already exists. This is `PrimaryKeyConflict`.
- `@PrimaryKey(autoGenerate = true)` on a `Long` makes the column `INTEGER PRIMARY KEY AUTOINCREMENT`.
- An id of 0 means "not set". The store then uses one more than the largest id the table has ever held.
- `DELETE FROM` does not reset that counter, so generated ids are never reused.
- If the counter is at `Long.MAX_VALUE`, no id can be generated and the insert fails. This is `DatabaseFull`.

The default language is `"Русский"`.

The timestamp is fixed when the record is built: its default argument reads the
clock, which is the `now` parameter of `NewHistoryItem`. `insert` does not set it.

## Model

| member | source | states |
|---|---|---|
| SearchResults.FormatServerResponse | app/src/main/java/com/redderi/pricep/screens/mainScreen.kt:73-86 | the loop that appends name, price and marker per product and records `icon_<index>` ↦ url yields exactly `FormattedText` and `IconLinks` of the list; a null list yields an empty text and an empty map |
| SearchResults.NatToString | app/src/main/java/com/redderi/pricep/screens/mainScreen.kt:82 | the index in an icon key is printed with at least one character, two or more from 10 on, ending in the index's last digit |
| SearchResults.NatToStringDigits | app/src/main/java/com/redderi/pricep/screens/mainScreen.kt:82 | every character of the printed index is a decimal digit |
| SearchResults.NatToStringInjective | app/src/main/java/com/redderi/pricep/screens/mainScreen.kt:82 | different indices print differently |
| SearchResults.IconKeyInjective | app/src/main/java/com/redderi/pricep/screens/mainScreen.kt:82 | `icon_i` and `icon_j` are the same key only when i = j, so no product's url overwrites another's |
| SearchResults.IconLinksDomain | app/src/main/java/com/redderi/pricep/screens/mainScreen.kt:76-82 | the url map for n products has exactly the keys `icon_0` … `icon_{n-1}` |
| SearchResults.IconLinksValues | app/src/main/java/com/redderi/pricep/screens/mainScreen.kt:76-82 | `icon_i` maps to product i's url |
| SearchResults.IconLinksSize | app/src/main/java/com/redderi/pricep/screens/mainScreen.kt:82 | the url map has one entry per product |
| SearchResults.FormattedTextSnoc | app/src/main/java/com/redderi/pricep/screens/mainScreen.kt:76-80 | appending a product appends its entry (name, newline, price, newline, marker, blank line) to the text, so the text is the in-order concatenation of the entries |
| SearchResults.FormatStep | app/src/main/java/com/redderi/pricep/screens/mainScreen.kt:76-82 | one more product extends the text by exactly its entry and the url map by exactly `icon_<index>` ↦ its url |
| SearchResults.FormattedTextEmpty | app/src/main/java/com/redderi/pricep/screens/mainScreen.kt:74-85 | the formatted text is empty exactly when the product list is empty |
| SearchResults.Split | app/src/main/java/com/redderi/pricep/screens/mainScreen.kt:208 | `split` on the marker gives one more part than there are markers, no part contains the marker, and the parts joined with the marker give the text back |
| SearchResults.SplitPrefix | app/src/main/java/com/redderi/pricep/screens/mainScreen.kt:208 | a marker-free prefix only extends the first part |
| SearchResults.SplitAfterMarker | app/src/main/java/com/redderi/pricep/screens/mainScreen.kt:208 | a leading marker cuts off an empty first part |
| SearchResults.SplitJoin | app/src/main/java/com/redderi/pricep/screens/mainScreen.kt:208 | joining marker-free parts and splitting again gives the parts back (the converse round trip) |
| SearchResults.SplitFormatted | app/src/main/java/com/redderi/pricep/screens/mainScreen.kt:76-80 | with marker-free names and prices, the formatted text splits into the products' name/price lines, each after a blank line except the first, then the trailing blank line |
| SearchResults.PiecesShape | app/src/main/java/com/redderi/pricep/screens/mainScreen.kt:76-80 | those parts number n + 1, and part i is product i's name and price lines |
| SearchResults.FormattedSplitParts | app/src/main/java/com/redderi/pricep/screens/mainScreen.kt:76-80 | without markers in names or prices the text holds exactly n markers and splits into n + 1 parts: part 0 is `name_0\nprice_0\n`, part i < n is `\n\nname_i\nprice_i\n`, the last part is `\n\n` |
| SearchResults.EveryIconResolves | app/src/main/java/com/redderi/pricep/screens/mainScreen.kt:217-224 | when no name or price contains the marker, every icon index below parts − 1 is a key of the url map and leads to that product's url: no link lookup misses |
| SearchResults.OccurrencesConcat | app/src/main/java/com/redderi/pricep/screens/mainScreen.kt:208 | the markers in a concatenation are those of its two halves |
| SearchResults.OccurrencesPositive | app/src/main/java/com/redderi/pricep/screens/mainScreen.kt:208 | a text that contains the marker has at least one occurrence of it |
| SearchResults.FormattedOccurrences | app/src/main/java/com/redderi/pricep/screens/mainScreen.kt:76-80 | the formatted text of n products holds at least n markers, and more than n when some name or price contains the marker |
| SearchResults.MarkerInNameMisaligns | app/src/main/java/com/redderi/pricep/screens/mainScreen.kt:208-224 | for every product list in which some name or price contains the marker, the text splits into more than n + 1 parts, so icons are drawn past the last product, and no key `icon_i` with i ≥ n is in the url map: those icons open nothing |
| SearchResults.ResultArea | app/src/main/java/com/redderi/pricep/screens/mainScreen.kt:189-231 | a spinner while loading; otherwise nothing when the text is empty; else one row per part, each but the last with the icon that looks up `icon_<index>` |
| SearchResults.ShownLinksMatchProducts | app/src/main/java/com/redderi/pricep/screens/mainScreen.kt:208-231 | for a non-empty product list whose names and prices hold no marker, the screen shows n + 1 rows; row i shows product i's lines and its icon opens product i's url; the last row has no icon (an empty list gives empty text, which `ResultArea` shows as nothing) |
| Preferences.ReadDarkMode | app/src/main/java/com/redderi/pricep/utils/UserPreferences.kt:17-18 | dark mode is on exactly when `true` is stored, so an absent key reads `false` |
| Preferences.ReadLanguage | app/src/main/java/com/redderi/pricep/utils/UserPreferences.kt:21-22 | the stored language, or `"Русский"` when none is stored |
| Preferences.WithDarkMode | app/src/main/java/com/redderi/pricep/utils/UserPreferences.kt:24-28 | after saving dark mode it reads the saved value; the language entry and reading are unchanged |
| Preferences.WithLanguage | app/src/main/java/com/redderi/pricep/utils/UserPreferences.kt:30-34 | after saving a language it reads that language; the dark-mode entry and reading are unchanged |
| Preferences.Reset | app/src/main/java/com/redderi/pricep/utils/UserPreferences.kt:36-44 | after a reset the map holds at most the language key, dark mode reads `false`, a stored language is kept exactly and an absent one stays absent |
| Preferences.ResetIdempotent | app/src/main/java/com/redderi/pricep/utils/UserPreferences.kt:36-44 | a second reset changes nothing |
| Preferences.ResetForgetsDarkMode | app/src/main/java/com/redderi/pricep/utils/UserPreferences.kt:36-44 | a dark-mode change before a reset leaves no trace after it |
| Preferences.UserPreferences.constructor | app/src/main/java/com/redderi/pricep/utils/UserPreferences.kt:11-22 | an empty store reads the defaults `false` and `"Русский"` |
| Preferences.UserPreferences.SaveDarkMode | app/src/main/java/com/redderi/pricep/utils/UserPreferences.kt:24-28 | sets only the `dark_mode` entry; dark mode then reads the saved value and the language reading is unchanged |
| Preferences.UserPreferences.SaveSelectedLanguage | app/src/main/java/com/redderi/pricep/utils/UserPreferences.kt:30-34 | sets only the `selected_language` entry; the language then reads the saved value and dark mode is unchanged |
| Preferences.UserPreferences.ResetSettings | app/src/main/java/com/redderi/pricep/utils/UserPreferences.kt:36-44 | reading, clearing and restoring the language gives exactly `Reset` of the old store |
| History.NewHistoryItem | app/src/main/java/com/redderi/pricep/database/HistoryItem.kt:7-12 | a record built with the defaults carries id 0 (let the store generate one), both texts, and the clock's time as timestamp |
| History.InsertByRecency | app/src/main/java/com/redderi/pricep/database/HistoryDao.kt:13 | inserting into a most-recent-first sequence keeps it most-recent-first and adds exactly that record |
| History.SortByRecency | app/src/main/java/com/redderi/pricep/database/HistoryDao.kt:13 | `ORDER BY timestamp DESC`: the result is most-recent-first and a permutation of the rows |
| History.HasId | app/src/main/java/com/redderi/pricep/database/HistoryItem.kt:8 | true exactly when some row holds the given primary key |
| History.DistinctIdsOccurOnce | app/src/main/java/com/redderi/pricep/database/HistoryItem.kt:8 | with distinct primary keys no record is stored twice |
| History.DistinctIdsPermutation | app/src/main/java/com/redderi/pricep/database/HistoryDao.kt:13-14 | any reordering of a table with distinct ids has distinct ids, so the listing does too |
| History.HistoryDao.constructor | app/src/main/java/com/redderi/pricep/database/HistoryDao.kt:7-17 | a new table is empty and has never issued an id |
| History.HistoryDao.Insert | app/src/main/java/com/redderi/pricep/database/HistoryDao.kt:10-11 | appends exactly one row and leaves the others as they were; id 0 gets a generated id never issued before; an explicit id already present fails with a key conflict; on failure nothing changes; ids stay distinct |
| History.HistoryDao.GetAllHistoryItems | app/src/main/java/com/redderi/pricep/database/HistoryDao.kt:13-14 | returns every row exactly once (a permutation), most recent first, with distinct ids, without changing the table |
| History.HistoryDao.ClearHistory | app/src/main/java/com/redderi/pricep/database/HistoryDao.kt:16-17 | the table becomes empty (a no-op on an empty table); the id counter is kept, so ids are not reused |

## Left out

- Compose UI is not modelled: layout, styling, the app bar and bottom bar, navigation, the splash delay and the settings screen. Only the result area's choice of spinner, rows or nothing and its part/icon structure are modelled.
- Network calls (`sendTextToServer`, `sendImageToApi`, the Retrofit service) are not modelled. The screen's rule that an empty successful body shows `"Error: empty response"` with an empty map also sits inside a network callback and is left out.
- Camera, gallery and speech recognition are not modelled. They are platform bindings, file I/O and permission handling.
- Opening a url through an `Intent` is not modelled. A click is modelled as the url the lookup returns, or none.
- `AnnotatedString` styling is not modelled: the text is a plain string. The 🔗 marker is one character here, whereas in Kotlin it is a UTF-16 surrogate pair. Splitting on it behaves the same either way.
- `AppDatabase.getDatabase` is not modelled. It is a thread-safe lazy singleton and concurrency is outside the model.
- `HistoryRepository`, `HistoryViewModel` and `HistoryViewModelFactory` pass calls straight to `HistoryDao` inside coroutines, so the DAO model covers them.
- DataStore and Room observability are not modelled: flows, the snapshot re-emitted after each change, and asynchronous completion. Only the state after each operation is modelled.
- Storage failures other than the two insert errors are not modelled, e.g. disk full or permission denied.
- Date formatting in the history screen, `ChangeLocale`, and the language-to-locale choice in the settings screen are not modelled.
- Preferences.ReadDarkMode: requires each key to hold a value of its own type. A mistyped stored value would make the Kotlin read throw a cast error. Only the typed writers modelled here write to the store, so that cannot happen.
- History.HistoryDao.Insert: rows are kept in insertion order, whereas SQLite keeps them in rowid order. Only the listing reveals an order, and its contract speaks of the rows as a multiset.
- History.HistoryDao.GetAllHistoryItems: among records with equal timestamps, the contract fixes no order, as SQL leaves it unspecified. The sorting function chooses one order for them.
