# FL Movie Wall — verified model of the userscript core

FL Movie Wall is a userscript (`dist/fl-movie-wall.user.js`, version 2.4)
that rebuilds a torrent listing page as a grid of poster cards. It also adds
a floating panel that filters rows by genre. This project models, in Dafny,
the logic under the page work:

- **Genres** (`genres.dfy`) covers four steps. It finds a row's genre text,
  the first `font.small` text holding both `[` and `]`. It parses that text
  into genre names (`extractGenres`). It decides whether a row is shown under
  a selection (`applyFilter`), and collects the sorted list of every genre on
  the page (`scanGenres`). A row is the sequence of its `font.small` texts.
  Its visibility is one boolean in an array that `ApplyFilter` updates in place.
- **Strings** (`strings.dfy`) holds the JavaScript string operations the parser
  relies on:
  - `String.prototype.trim` over the ECMAScript white-space and line-terminator
    set;
  - `split` on one character (`"".split(',')` is `[""]`);
  - a total order on strings;
  - decimal digits.
- **Markup** (`markup.dfy`) holds `escapeHtml` and `normalizeToAbs`.
- **ThumbCache** (`thumbcache.dfy`) holds the poster cache and the cache
  branch of `fetchThumbFromDetails`:
  - The cache maps a details URL to `{url, ts}` with a one-week time to live.
  - `ThumbStore` holds the stored dictionary and rewrites it by
    read-modify-write.
  - The clock and the outcome of the network request are parameters.
- **JobQueue** (`jobqueue.dfy`) holds `createQueue(limit)`. It is a class
  with the queue's `active` counter and pending list as fields. Its ghost
  state records which jobs started, and in what order.
- **CardLayout** (`cardlayout.dfy`) holds `clamp` and the panel positions
  derived from it, plus a card's genre badges: three names and a `+N` marker.
- **RowStats** (`rowstats.dfy`) holds the seeders/leechers pick of `getRowData`.

## Model

`Strings.Trim`, `Genres.ExtractGenres`, `Genres.RowVisibility`,
`Markup.EscapeHtml` and `RowStats.BoldNumbers` are the definitions that
mirror the script's functions. Their properties are stated by the lemmas and
callers listed against the same lines below, not by contracts of their own.

| member | source | states |
|---|---|---|
| `Strings.TrimSlice` | dist/fl-movie-wall.user.js:66 | `trim()` yields a contiguous slice of its input with no white space at either end, and only white space is cut off on each side |
| `Strings.TrimKeepsOut` | dist/fl-movie-wall.user.js:66 | trimming adds no character that was not in the input |
| `Strings.TrimPadded` | dist/fl-movie-wall.user.js:66 | leading white space in front of an already-trimmed string is removed and nothing else |
| `Strings.TrimIdempotent` | dist/fl-movie-wall.user.js:66 | trimming twice is trimming once |
| `Strings.Split` | dist/fl-movie-wall.user.js:65 | `split(',')` yields at least one piece (`[""]` for the empty string), no piece holds the separator, and joining the pieces with it gives the input back |
| `Strings.SplitJoin` | dist/fl-movie-wall.user.js:65 | splitting one or more pieces that do not hold the separator, after joining them with it, gives those pieces back (no pieces join to `""`, which splits to `[""]`) |
| `Strings.LessTransitive` | dist/fl-movie-wall.user.js:84 | the order that stands in for `localeCompare` is transitive |
| `Strings.LessTotal` | dist/fl-movie-wall.user.js:84 | any two different strings are ordered one way or the other |
| `Strings.LessIrreflexive` | dist/fl-movie-wall.user.js:84 | no string is below itself |
| `Strings.Decimal` | dist/fl-movie-wall.user.js:546 | a number is printed as a digit string whose value is that number and which has no leading zero |
| `Genres.FindGenreFont` | dist/fl-movie-wall.user.js:70-73 | none exactly when no text holds both brackets; otherwise the first text that does |
| `Genres.RemoveBrackets` | dist/fl-movie-wall.user.js:64 | no `[` or `]` is left, and every other character occurs in the result iff it occurs in the input (order and count are fixed by the two lemmas below) |
| `Genres.RemoveBracketsConcat` | dist/fl-movie-wall.user.js:64 | removing brackets works piece by piece: on a concatenation it is the concatenation of the results, so kept characters keep their order and number |
| `Genres.RemoveBracketsNone` | dist/fl-movie-wall.user.js:64 | a text without brackets is left exactly as it is |
| `Genres.CleanPieces` | dist/fl-movie-wall.user.js:66-67 | after `trim` and `filter(Boolean)` every piece is non-empty and trimmed, and holds no markup character if no input piece did |
| `Genres.ExtractedWellFormed` | dist/fl-movie-wall.user.js:62-68 | every genre `extractGenres` returns is non-empty, trimmed, and free of `[`, `]` and `,` |
| `Genres.ExtractEmpty` | dist/fl-movie-wall.user.js:62-68 | a missing or empty genre text yields no genres |
| `Genres.ExtractRendered` | dist/fl-movie-wall.user.js:62-68 | parsing `[g1, g2, ...]` built from well-formed genres yields exactly those genres in order; `[]` yields none |
| `Genres.AnySelected` | dist/fl-movie-wall.user.js:93 | `genres.some(g => selected[g])` holds iff some genre of the row is selected |
| `Genres.Shown` | dist/fl-movie-wall.user.js:88-93 | under an empty selection every row is shown; otherwise a row is shown iff one of its genres is selected |
| `Genres.SelectMoreKeepsShown` | dist/fl-movie-wall.user.js:88-93 | adding genres to a non-empty selection never hides a shown row |
| `Genres.NoGenresHidden` | dist/fl-movie-wall.user.js:88-93 | under a non-empty selection a row whose genre text has no genres is hidden |
| `Genres.ApplyFilter` | dist/fl-movie-wall.user.js:87-97 | each row with a genre text gets the visibility `Shown` gives it; rows without one keep their visibility |
| `Genres.InsertSorted` | dist/fl-movie-wall.user.js:84 | inserting a new genre into a sorted list keeps it sorted and adds exactly that genre |
| `Genres.SortDistinct` | dist/fl-movie-wall.user.js:84 | sorting distinct genres gives a strictly increasing permutation of them |
| `Genres.AddAll` | dist/fl-movie-wall.user.js:82 | adding a row's genres to the set keeps each genre once, the genres already there keep their places at the front, and the set becomes the old one plus those genres |
| `Genres.SortedUnique` | dist/fl-movie-wall.user.js:84 | two strictly sorted lists with the same genres are equal, so the sorted genre list is determined by the set of genres alone |
| `Genres.ScanGenres` | dist/fl-movie-wall.user.js:77-85 | the result is strictly increasing, so it has no duplicates, and holds exactly the genres of the rows |
| `Markup.EscapeHtmlCharwise` | dist/fl-movie-wall.user.js:321-328 | the five `replaceAll` passes, `&` first, replace every character by its entity once; no pass rewrites an entity an earlier pass wrote |
| `Markup.EscapeHtmlEscaped` | dist/fl-movie-wall.user.js:321-328 | the output has no `<`, `>`, `"` or `'`, and every `&` begins `&amp;`, `&lt;`, `&gt;`, `&quot;` or `&#039;` |
| `Markup.UnescapeEscapeHtml` | dist/fl-movie-wall.user.js:321-328 | decoding the five entities gives the original text back, so nothing is escaped twice |
| `Markup.NormalizeToAbs` | dist/fl-movie-wall.user.js:330-335 | an empty URL and an `http://` or `https://` URL are returned unchanged; any other URL starting with `/` becomes origin + URL, and one not starting with `/` becomes origin + `/` + URL; the URL always ends the result, and for a non-empty URL the result is absolute when the origin is |
| `Markup.NormalizeIdempotent` | dist/fl-movie-wall.user.js:330-335 | with an absolute origin, resolving an already-resolved URL changes nothing |
| `ThumbCache.GetCachedThumb` | dist/fl-movie-wall.user.js:341-347 | a URL is returned iff the item exists, its URL is non-empty, and `now - (ts or 0)` is at most the time to live; the URL returned is the stored one |
| `ThumbCache.Stored` | dist/fl-movie-wall.user.js:350 | the item written keeps the thumbnail if it is non-empty, stores `null` otherwise, and is stamped with `now` |
| `ThumbCache.ThumbStore.SetCachedThumb` | dist/fl-movie-wall.user.js:348-352 | the dictionary changes at `key` only, to the new item |
| `ThumbCache.ThumbStore.FetchThumbFromDetails` | dist/fl-movie-wall.user.js:363-380 | a fresh hit on the resolved URL is returned and the cache is untouched; a failed request, or a completed one whose cache write the browser refuses, returns null and leaves the cache untouched; otherwise what was found (or null) is stored under the resolved URL and returned |
| `ThumbCache.StoreThenGet` | dist/fl-movie-wall.user.js:341-352 | a read right after a write at the same moment returns the written URL, or null if it was not usable |
| `ThumbCache.StoreLeavesOthers` | dist/fl-movie-wall.user.js:348-352 | a write does not change the answer for any other key |
| `ThumbCache.NegativeEntryMisses` | dist/fl-movie-wall.user.js:344 | a stored null is a miss, so the page is fetched again |
| `ThumbCache.FreshUntilTtl` | dist/fl-movie-wall.user.js:29 | an item exactly seven days old is still served; one millisecond later it is not |
| `ThumbCache.MissingStampIsEpoch` | dist/fl-movie-wall.user.js:345 | in any cache, an item with a usable URL and no `ts` is treated as stored at time 0: it is served exactly while `now` is at most the time to live |
| `ThumbCache.StaleStaysStale` | dist/fl-movie-wall.user.js:341-347 | once a lookup misses, it misses at every later time |
| `JobQueue.Queue.constructor` | dist/fl-movie-wall.user.js:383-385 | a new queue has no running and no waiting job |
| `JobQueue.Queue.Next` | dist/fl-movie-wall.user.js:386-395 | `next()` starts the oldest waiting job when fewer than `limit` run, and at most one; otherwise nothing changes |
| `JobQueue.Queue.Submit` | dist/fl-movie-wall.user.js:396 | a new job starts at once if a slot is free, otherwise it waits at the back; at most `limit` run, jobs start in the order they were handed in, and nothing waits while a slot is free |
| `JobQueue.NewFetchQueue` | dist/fl-movie-wall.user.js:398 | the fetch queue is a new, empty queue whose limit is four |
| `JobQueue.Queue.Complete` | dist/fl-movie-wall.user.js:394 | a settling job frees its slot, and the oldest waiting job, if any, takes it; the same invariants are kept |
| `CardLayout.Clamp` | dist/fl-movie-wall.user.js:58-60 | the result lies in `[min, max]` when `min <= max` (and is `min` otherwise), equals `n` when `n` is inside, and is the nearer bound when it is outside |
| `CardLayout.ClampNearest` | dist/fl-movie-wall.user.js:58-60 | no point of the interval is closer to `n` than the clamped value |
| `CardLayout.ClampIdempotent` | dist/fl-movie-wall.user.js:58-60 | clamping twice is clamping once |
| `CardLayout.PanelOffset` | dist/fl-movie-wall.user.js:596-597 | the panel's offset is at least 8, keeps the panel 8 pixels inside a window wide enough for it, and is left alone when already inside |
| `CardLayout.GenreBadges` | dist/fl-movie-wall.user.js:545-546 | the badges are the first `min(3, n)` genres, and a marker appears iff there are more than three |
| `CardLayout.BadgesAccountForAll` | dist/fl-movie-wall.user.js:545-546 | the badges shown plus the number in the `+N` marker add up to the number of genres |
| `CardLayout.MarkerNeverZero` | dist/fl-movie-wall.user.js:546 | the marker reads `+` followed by a number without a leading zero |
| `RowStats.SeedsLeech` | dist/fl-movie-wall.user.js:439-448 | seeders and leechers stay null exactly when fewer than two bold texts are counts; otherwise they are the values of the last two count texts of the row, in order, whatever padding, leading zeros or non-count texts surround them |
| `RowStats.LastCount` | dist/fl-movie-wall.user.js:439-442 | the last number of a row is the value of its last count text, and the others come from the texts before it |
| `RowStats.LastTwoCounts` | dist/fl-movie-wall.user.js:446-447 | `bNums[len-2]` and `bNums[len-1]` are the values of two count texts with no other count text after the first of them |
| `RowStats.BoldNumbersAppend` | dist/fl-movie-wall.user.js:439-442 | the count texts are kept in row order: the numbers of two parts of a row are the numbers of the whole |
| `RowStats.DecimalIsCount` | dist/fl-movie-wall.user.js:441-442 | a printed number passes `/^\d+$/` after `trim` and `Number` reads it back |
| `RowStats.LastTwoAreRead` | dist/fl-movie-wall.user.js:439-448 | when the row's last two bold texts print the seeders and leechers, those are the values reported, whatever bold texts precede them |
| `RowStats.NonCountIgnored` | dist/fl-movie-wall.user.js:441 | a bold text that is not a count, at any position in the row, does not change the pick |
| `RowStats.TwoCountsGivePair` | dist/fl-movie-wall.user.js:439-447 | any two count texts in a row are enough for seeders and leechers to be reported |
| `RowStats.TooFewBold` | dist/fl-movie-wall.user.js:445 | a row with fewer than two bold elements reports no seeders and no leechers |

## Left out

- Page access is not modelled: DOM queries, CSS injection, the panel's
  drag-and-resize handlers, `innerHTML` rendering and the `setInterval`
  retry loop. A row is given as its texts, and a row's visibility as a
  boolean.
- Storage and JSON are not modelled: `localStorage` and
  `JSON.parse`/`JSON.stringify`, including the fallback when a stored value
  does not parse. The thumbnail cache is a dictionary held by `ThumbStore`.
  The stored selection is a set of genre names. The script only ever
  writes `sel[g] = true` and rebuilds the object from the checked boxes,
  so every own key of the object is selected.
- `Genres.AnySelected`: genre names are assumed not to be names of
  `Object.prototype` members. `selected[g]` also finds inherited members,
  so a row whose genre is `toString`, `constructor` or `valueOf` is shown
  in the script under any non-empty selection. The model tests set
  membership and hides that row unless the genre is selected.
- Network requests and scraping are not modelled: `fetch` and the regular
  expressions that find a poster URL in a details page.
  `FetchThumbFromDetails` takes the request's outcome as an input:
  `Failed`, or `Loaded` with the poster found, if any. The clock
  (`Date.now()`) and `location.origin` are parameters.
- Promise scheduling is not modelled. When a queued job settles, the
  environment calls `Complete`. A job's result and the queue's `resolve`
  and `reject` callbacks are not modelled.
- `localeCompare` depends on the locale and is not modelled. Genres are
  sorted by code point order instead. The model proves that order is a
  strict total order.
- Title search (`toLowerCase().includes`), size and date extraction, the
  card markup itself and the view/UI settings are outside this model.
- JavaScript's `null`/`undefined` inputs are not modelled.
  - `escapeHtml(s)` uses `String(s || '')` and `extractGenres(text)` uses
    `text || ''`. Both are modelled on strings, where a missing value is
    the empty string.
  - `normalizeToAbs` returns a missing URL unchanged. In the model that is
    the empty string.
- `RowStats.SeedsLeech`: `Number(x)` is a double. The model reads the digits
  as an unbounded natural number, so it does not capture the loss of
  precision above 2^53.
- `CardLayout.PanelOffset`: window and panel sizes are integers here. In the
  browser they are floating-point pixels.
- `ThumbCache.NegativeEntryMisses`: a stored `null` counts as a miss, and
  the page is requested again on the next render. A failed extraction
  writes a `null` item, and `getCachedThumb` treats it as a miss, so a
  negative result never suppresses a refetch.
- `ThumbCache.ThumbStore.FetchThumbFromDetails`: a refused write is a
  boolean input. It does not model why the browser refuses the write.
  The cache is never pruned, so stale and `null` items build up until the
  storage quota is reached.
- A cache item whose `url` is a non-string JSON value is not modelled.
  Items are modelled as an optional string URL and an optional integer
  timestamp.
