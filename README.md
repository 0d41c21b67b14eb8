# WuHaiBiYuan downloader — bookkeeping core in Dafny

The downloader is a mitmproxy add-on. The reader web page requests each page
of a book as six encrypted tiles. The proxy watches the responses and
reassembles the pages. A "pre-tile" request tells it which tile position
(`zn`) belongs to which encrypted tile key (`encode_zn`). The tile response
itself carries only that key. Once a page has six tiles, the proxy pastes
them into one image. Once every page of a book is on disk, it assembles a
PDF with the book's bookmarks.

This project models that bookkeeping:

- `Orders`: `SplitPageOrder`, the tile-order table.
  - Pre-tile responses fill it, last write wins.
  - Tile responses consume it exactly once.
  - An emptied page level is pruned; the book level never is.
- `Pages`: `OnePage`, a page's tile slots.
  - The completeness test counts keys.
  - The composite image is modelled by its geometry only: canvas width and height, and each tile's x-offset.
- `Books`: `WQBook`, one book.
  - One-shot metadata and bookmark setters.
  - The missing-page report.
  - Lazy page creation.
  - Tile submission that marks pages downloaded and reports book completion.
  - The scan of pages already on disk.
  - The PDF file name.
- `Addon`: `WQBookAddon`.
  - The wanted-book pool and the finished-book set.
  - The `filter_book` gate.
  - The exclusive routing of a response to one of four handlers.
  - Extraction of the book id and page from a tile URL path.
  - Eviction of a finished book.
- `Utils`: the pure helpers.
  - The file-name sanitiser `be_good_name`, which removes the nine characters `\/:*?"<>|`.
  - Image-file selection and numeric ordering.
  - The flattening of a bookmark tree into outline-item calls.
- `Strings`: the Python string operations these use: `in`, `split`, `int()` and `str()` on integers.
- `Wrappers`: `Option`.

Classes are used where the source mutates objects: `OnePage`, `WQBook`,
`SplitPageOrder` and `WQBookAddon`. Their methods are proved against pure
specification functions. For example, `SplitPageOrder.Get` is proved equal to
`GetToken`, and the properties of the table are lemmas about `Record` and
`Resolve`. A page table keeps Python's dict insertion order, because `get`
returns the first matching entry.

The tile range guard in `OnePage.add_split_page` (proxy_server/wqbook.py:28)
tests `index < 0 and index > 6`, which no integer satisfies, so every index is
stored. The model keeps this behaviour:

- `GuardNeverRejects` shows the guard never fires.
- `EnoughWithoutAllSlots` shows that `is_enough` can then hold while slot 0 is empty.
- In that case `save_full_page` raises `KeyError`. `SaveFullPage` and `WQBook.AddSplitPage` return `None` for this case.

The guard's own log message (proxy_server/wqbook.py:29) names `[0, 5]` as the
expected range of positions. `PageCompleteIffAllArrived` shows that, for
positions in that range, a page is complete exactly when every position has
arrived, in any order and with repeats.

## Model

| member | source | states |
|---|---|---|
| Strings.ContainsIff | proxy_server/process_url.py:41-54 | Python's substring test `p in s` holds iff `p` occurs at some index of `s` |
| Strings.SplitNoSeparator | proxy_server/process_url.py:123 | a string without `/` splits into itself alone |
| Strings.SplitAtSeparator | proxy_server/process_url.py:123 | `(x + "/" + y).split("/")` is the segments of `x` followed by those of `y` |
| Strings.IntToStringRoundTrip | proxy_server/wqbook.py:178 | `int(str(n)) == n` for every integer, the page file name's stem reads back as its page number |
| Strings.IntToStringChars | proxy_server/wqbook.py:204 | `str(n)` is non-empty, every character after the first is a digit, the first is a digit or `-`, and it is `-` exactly when `n` is negative |
| Utils.BeGoodName | proxy_server/utils.py:55-62 | the loop equals replacing each forbidden character in turn; with a clean replacement this is the one-pass substitution and the result holds no forbidden character |
| Utils.ReplaceEachIsSubstitute | proxy_server/utils.py:57-60 | when the replacement holds none of the remaining characters, the character-by-character loop equals one left-to-right substitution |
| Utils.ReplaceEach | proxy_server/utils.py:58-60 | the replacement loop; a name holding none of the characters comes back unchanged, whatever the replacement |
| Utils.DeleteForbidden | proxy_server/utils.py:55-62 | with `be=""` the result holds no forbidden character, is a subsequence of the input, and keeps every other character with its multiplicity |
| Utils.SanitizeIdempotent | proxy_server/utils.py:55-62 | sanitising twice equals sanitising once when the replacement is clean |
| Utils.LastDot | proxy_server/utils.py:71 | the position of the last dot, or -1; no dot follows it |
| Utils.KeptMembers | proxy_server/utils.py:69-72 | the kept names are exactly the listed names whose suffix is `"." + suffix` |
| Utils.SortByCorrect | proxy_server/utils.py:75 | the reference sort by integer stem is ascending and a permutation of its input |
| Utils.InsertSorted | proxy_server/utils.py:75 | inserting into a sorted list keeps it sorted |
| Utils.InsertPermutes | proxy_server/utils.py:75 | insertion adds exactly the one element |
| Utils.GetImgsFiles | proxy_server/utils.py:64-75 | `ValueError` iff some kept name has a non-integer stem; otherwise the result has exactly the kept names, as a permutation of the kept list, in ascending stem order |
| Utils.PageFileNameRoundTrip | proxy_server/wqbook.py:176-178 | the file `"{page_num}.{fmt}"` a page is saved to passes the suffix filter and its stem reads back as `page_num` |
| Utils.NameParts | proxy_server/utils.py:71 | `stem + "." + fmt`, with no dot in `fmt`, has suffix `"." + fmt` and stem `stem` |
| Utils.OutlineExtends | proxy_server/utils.py:95-119 | `_add_outline` only appends calls; each new call has a page index not above the total, and a parent that is the caller's or an earlier call of the same run |
| Utils.AddOutline | proxy_server/utils.py:95-117 | `_add_outline` never removes a call: the result is at least as long as the calls made before it |
| Utils.OutlinePrefix | proxy_server/utils.py:95-117 | the calls made before `_add_outline` are kept, in order, as a prefix of the result |
| Utils.OutlineInRange | proxy_server/utils.py:95-119 | with every page in range, the calls are the whole forest in depth-first pre-order, index `pnum - 1`, parent the enclosing item (None at top level) |
| Utils.OutlineStopsLevel | proxy_server/utils.py:105-106 | the first item of a level whose index exceeds the total ends that level: later items of the level are never emitted |
| Utils.OutlineStopIsLocal | proxy_server/utils.py:105-115 | an item whose index equals the total is emitted; a child level that stops does not stop its parent level |
| Pages.CompositeSideBySide | proxy_server/wqbook.py:50-59 | canvas width is the sum of tile widths, height the tallest tile; tile 0 at x=0, each next tile right after the previous, the last ending at the canvas edge |
| Pages.MaxHeightIsMax | proxy_server/wqbook.py:52 | the height bounds every tile and is reached by one |
| Pages.Composite | proxy_server/wqbook.py:49-59 | one x-offset per tile, the first at 0; the canvas is at least as tall as every tile and exactly as tall as one of them |
| Pages.SumWidthsMonotone | proxy_server/wqbook.py:51-59 | every x-offset is at most the canvas width |
| Pages.LayOut | proxy_server/wqbook.py:50-59 | the paste loop's running x-offset yields the reference layout |
| Pages.GuardNeverRejects | proxy_server/wqbook.py:28-30 | the range guard never rejects an index |
| Pages.EnoughIffAllSlots | proxy_server/wqbook.py:35-37 | for indices within 0..5, six keys is the same as every slot 0..5 being filled |
| Pages.EnoughWithoutAllSlots | proxy_server/wqbook.py:28-37 | tiles at indices 1..6 make `is_enough` true while slot 0 is empty |
| Pages.FillLastWriteWins | proxy_server/wqbook.py:32-33 | after any sequence of adds, the keys are the old keys plus the written indices; a slot holds the tile of its last write, and unwritten slots keep their tile |
| Pages.PageCompleteIffAllArrived | proxy_server/wqbook.py:26-37 | for indices in 0..5, the page is complete iff every index arrived at least once |
| Pages.OnePage.constructor | proxy_server/wqbook.py:20-24 | no tiles and no indices |
| Pages.OnePage.AddSplitPage | proxy_server/wqbook.py:26-33 | any index is stored: the slot map is updated at `index`, other slots are unchanged, and the index is added to `added_pages` |
| Pages.OnePage.IsEnough | proxy_server/wqbook.py:35-37 | when every stored index is within 0..5, six stored tiles is the same as every slot 0..5 being filled |
| Pages.OnePage.SaveFullPage | proxy_server/wqbook.py:39-59 | `KeyError` iff a slot in 0..5 is empty; otherwise the layout of slots 0..5 in order |
| Orders.LookupIn | proxy_server/wqbook.py:291 | a key is found iff some entry has it |
| Orders.PutSemantics | proxy_server/wqbook.py:291 | dict assignment keeps keys unique, maps the key to the new value and every other key as before, keeps an existing key's place, and appends a new key last |
| Orders.PopSemantics | proxy_server/wqbook.py:335 | `pop` on a dict removes that key: it now maps to nothing, every other key keeps its value, keys stay unique, a table holding the key shrinks by one, and the popped value occurs once less |
| Orders.PopKeepsOrder | proxy_server/wqbook.py:335 | a missing key leaves the table as it was; a present key loses exactly its first entry, at some index `i`, and the entries before and after `i` stay in order |
| Orders.FirstMatchFound | proxy_server/wqbook.py:324-327 | with unique keys, the key the scan finds maps to the value looked for |
| Orders.FirstMatchMisses | proxy_server/wqbook.py:324-327 | the scan misses iff the value occurs nowhere |
| Orders.RecordLastWriteWins | proxy_server/wqbook.py:283-291 | `_add` creates the levels it needs and sets the entry; other keys of the page and all other pages are unchanged; uniqueness is kept |
| Orders.Record | proxy_server/wqbook.py:283-291 | `_add` creates the book and page levels it needs: the books are the old ones plus `bid`, the pages of `bid` the old ones plus `page_num`, and every other book is unchanged |
| Orders.ResolveMissUnchanged | proxy_server/wqbook.py:309-332 | a missing book or page, or no matching value, returns -1 and leaves the table unchanged |
| Orders.Resolve | proxy_server/wqbook.py:309-340 | no book level is added or dropped and other books are unchanged; -1 leaves the table as it was; any other order is the key of the first entry holding the value, in an existing page |
| Orders.ResolveHit | proxy_server/wqbook.py:324-338 | a hit returns the first matching key and removes exactly that entry; the page is dropped iff it held only that entry; the book level and all other pages stay |
| Orders.ResolveConsumesOnce | proxy_server/wqbook.py:324-340 | a value present once is found by the first lookup and missed by the next |
| Orders.RecordThenResolve | proxy_server/wqbook.py:283-340 | recording one entry on an empty page, then resolving its key, returns its position, prunes the page again but keeps the book level, and a second lookup misses |
| Orders.AddToken | proxy_server/wqbook.py:241-281 | an empty body, a token that does not decode and a body that does not decrypt each change nothing; no book or page level ever disappears |
| Orders.GetToken | proxy_server/wqbook.py:293-340 | no book level is added or dropped; a failed token decode returns -1 with the table unchanged, and any -1 leaves the table as it was |
| Orders.SplitPageOrder.constructor | proxy_server/wqbook.py:227-228 | an empty table |
| Orders.SplitPageOrder.Add | proxy_server/wqbook.py:241-281 | an empty body or a failed decode changes nothing; otherwise the body is decrypted with the AES key made of the first 16 characters of the token's `i`, and the decrypted value is recorded under the token's book, page and `zn` |
| Orders.SplitPageOrder.AddEntry | proxy_server/wqbook.py:283-291 | the table becomes `Record` of the old one and stays free of repeated keys |
| Orders.SplitPageOrder.Get | proxy_server/wqbook.py:293-340 | the scan loop returns the order `GetToken` specifies and leaves the table it specifies; -1 leaves the object unchanged |
| Books.MissingPages | proxy_server/wqbook.py:137-140 | the list is exactly the pages 1..total not downloaded, strictly ascending |
| Books.MissingPagesUnique | proxy_server/wqbook.py:137-140 | that description determines the list |
| Books.PdfOutput | proxy_server/wqbook.py:200-205 | the output name is `{bid}_{name}({author}).pdf` with the nine characters `be_good_name` removes deleted from name and author, and it holds none of them |
| Books.PdfFileNameClean | proxy_server/wqbook.py:200-205 | the PDF file name holds no forbidden character, whatever the title and author |
| Books.ScanDownloaded | proxy_server/wqbook.py:101-106 | `ValueError` iff a kept name has a non-integer stem; otherwise the downloaded pages are exactly the stems of the kept names |
| Books.CollectStems | proxy_server/wqbook.py:103-106 | the loop adds exactly the stems of the listed files |
| Books.WQBook.constructor | proxy_server/wqbook.py:74-92 | the given `bid`; empty name and author, total 0, no bookmark, no pages, no saved page images and no PDF jobs; the downloaded pages are those found on disk |
| Books.WQBook.AddBookInfo | proxy_server/wqbook.py:116-142 | a no-op once name and total are both set; otherwise stores author, name and total and leaves bookmark, pages, downloaded pages, saved images and PDF jobs as they were; then reports nothing iff no page is cached, all-cached iff the count equals the total, else the missing-page list |
| Books.WQBook.AddBookmark | proxy_server/wqbook.py:144-149 | the first bookmark is kept, later ones are ignored; name, author, total, pages, downloaded pages, saved images and PDF jobs are unchanged |
| Books.WQBook.GetOnePage | proxy_server/wqbook.py:154-162 | an existing page is returned unchanged; a missing one is created empty and added, with no other page touched |
| Books.WQBook.IsPageDownloaded | proxy_server/wqbook.py:194-196 | a page reads as downloaded exactly when it was found on disk when the book was created (lines 101-106) or its image was saved since (line 182); the constructor establishes this accounting and every method of the book keeps it |
| Books.WQBook.SaveAsPdf | proxy_server/wqbook.py:198-210 | one PDF job is appended, with the sanitised file name and the book's bookmark; nothing else changes |
| Books.WQBook.StoreTile | proxy_server/wqbook.py:171-172 | the page accumulator is fetched or created, never replaced, and its slot `index` gets the tile; the other pages, their tiles, the downloaded pages, saved images, PDF jobs and metadata are unchanged |
| Books.WQBook.SaveIfEnough | proxy_server/wqbook.py:175-192 | pages and tiles unchanged; a complete page gets its composite saved and is marked downloaded, and a PDF job starts iff the total is non-zero and reached; `KeyError` iff six keys but a slot 0..5 is empty; otherwise `True` iff the page is complete and the book has all its pages |
| Books.WQBook.RecordSaved | proxy_server/wqbook.py:178-182 | the page's image is recorded and the page added to `downloaded_page`; the pages found on disk at creation are unchanged and the accounting of downloaded pages is kept; everything else is unchanged |
| Books.WQBook.MarkSaved | proxy_server/wqbook.py:179-192 | the saved image is recorded and the page added to `downloaded_page`; the result is `True` iff the total is non-zero and the count reaches it, and exactly then one PDF job is appended; pages, tiles and metadata unchanged |
| Books.WQBook.AddSplitPage | proxy_server/wqbook.py:164-192 | the whole new book state, from the old one: the accumulator (created if needed, never replaced) gets the tile at `index`, other pages keep theirs; a page then complete is saved as the composite of slots 0..5 and added to `downloaded_page`; a PDF job starts iff that brings the count to a non-zero total; `KeyError` iff six keys but a slot 0..5 empty; otherwise `True` iff the page is complete and the book has all its pages |
| Addon.Route | proxy_server/process_url.py:41-54 | exactly one handler, or none, is picked: the first API fragment the URL contains, in the order tile, pre-tile, book info, bookmark |
| Addon.RouteTileFirst | proxy_server/process_url.py:41-42 | a URL holding the tile fragment always goes to the tile handler |
| Addon.TileIds | proxy_server/process_url.py:120-125 | a path without `/` has no second-to-last segment, so the result is None (the IndexError) |
| Addon.TileIdsRoundTrip | proxy_server/process_url.py:120-125 | a path ending `/{bid}/{page}` yields that `bid` (second-to-last segment) and page (last segment) |
| Addon.SubmitTile | proxy_server/process_url.py:144 | the book goes from its old state to the new one as `add_split_page` does (the tile stored, a complete page saved and marked, a PDF job on completion); the result is `True` iff the page is complete and the book has all its pages |
| Addon.WQBookAddon.constructor | proxy_server/process_url.py:17-31 | one fresh book per configured id, each with empty name and author, total 0, no bookmark, pages, saved images or PDF jobs, and its cached pages as downloaded; nothing finished; an empty order table; the pool and the finished set are disjoint |
| Addon.WQBookAddon.PutBook | proxy_server/process_url.py:30-31 | the id maps to a fresh book in the initial state, the other ids keep their books, and the finished set is unchanged |
| Addon.WQBookAddon.FilterBook | proxy_server/process_url.py:62-76 | `True` for a book not in the pool, and for a finished book; otherwise `True` iff the page number is neither None nor 0 and that page is downloaded |
| Addon.WQBookAddon.FilterBookFinished | proxy_server/process_url.py:62-76 | a finished book is out of the pool and always filtered |
| Addon.WQBookAddon.ProcessBookInfo | proxy_server/process_url.py:78-98 | a filtered book or an undecodable response changes nothing; otherwise that book's fields change exactly as `add_book_info` says (metadata set unless already set, everything else kept), and no other object changes |
| Addon.WQBookAddon.ProcessReqBeforeSplitPage | proxy_server/process_url.py:100-115 | a filtered page or an undecodable response changes nothing; otherwise the order table becomes `add(k, data)` of the old one, and no book is touched |
| Addon.WQBookAddon.ProcessReqSplitPage | proxy_server/process_url.py:117-148 | a bad path, a filtered page or a missing `k` changes nothing; otherwise the table is consumed as `get(k)` specifies; an order of -1 leaves every book untouched; any other order goes to book `bid`, page `page_num`, slot `order`, with the book changing as `add_split_page` does; the book leaves the pool for the finished set iff the page and the book are then complete; every other book is untouched |
| Addon.WQBookAddon.ResolveOrder | proxy_server/process_url.py:135 | the order and the new table are what `get(k)` specifies for the old table; -1 leaves the table object unchanged |
| Addon.WQBookAddon.DeliverTile | proxy_server/process_url.py:144-148 | the tile reaches book `bid`, page `page_num`, slot `order`, the book changing as `add_split_page` does; the book moves from the pool to the finished set iff the page and the book are then complete, otherwise pool and finished set are unchanged; the order table and every other book are unchanged |
| Addon.WQBookAddon.FeedBook | proxy_server/process_url.py:144 | book `bid` changes as `add_split_page(page_num, order, tile)` does; the result is `True` iff the page and the book are then complete; the pool, the finished set, the order table and every other book are unchanged |
| Addon.WQBookAddon.Evict | proxy_server/process_url.py:145-148 | the book moves from the pool to the finished set, the two stay disjoint, and `filter_book(bid, _)` is `True` from then on |
| Addon.WQBookAddon.ProcessBookmark | proxy_server/process_url.py:150-162 | a filtered book or an undecodable response changes nothing; otherwise the book keeps its first bookmark, its other fields and every other object are unchanged |
| Addon.WQBookAddon.Response | proxy_server/process_url.py:35-54 | returns the routed handler, and the state changes exactly as that handler states: the tile handler as `process_req_split_page` above, the pre-tile handler applies `add(k, data)` to the table, the book-info and bookmark handlers change only their book as `add_book_info` and `add_bookmark` do; no handler changes nothing; only the tile handler changes the pool or the finished set |

## Left out

- I/O, threads and libraries. These are not modelled:
  - the mitmproxy plumbing;
  - `urllib` URL and query parsing;
  - `json.loads` of bodies;
  - logging: the `add_book_info` report value stands in for its log messages;
  - PIL decoding, pasting and saving: a tile is its size, and a saved page is its layout;
  - `json.dump` of the bookmark;
  - `mkdir`/`iterdir`: a directory is the sequence of names it lists, and the cached pages of each book are a given function of its id;
  - the `_save_as_pdf` thread and `merge_image_as_pdf` with pypdf: a PDF job is recorded instead.
- A `Request` carries its parts already decoded. `None` marks a part whose decoding raises, such as a missing query key, a non-integer or a missing JSON field. The handler then stops, as the raised error would stop it.
- `jwt_decrypt` and `aes_decrypt` (proxy_server/utils.py:18-53) are given functions in `Codec` that return `Option`. They can fail in any way, so the base64 decoding outside the `try` is covered.
- Utils.Clean: checks only the nine characters `be_good_name` removes. Windows also refuses control characters U+0001 to U+001F, reserved device names and over-long names, and nothing in the model excludes them.
- Strings.ParseInt: accepts only an optional sign followed by ASCII digits. It does not model the surrounding whitespace, the underscores or the non-ASCII digits Python's `int()` also accepts.
- A bookmark's `pnum` is taken as an already parsed integer. The `int()` of that string is not modelled.
- Utils.GetImgsFiles: does not state that the sort is stable (equal stems keep listing order). The reference insertion sort is stable, but no contract says so.
- Addon.WQBookAddon.constructor: `cached(b)` stands for the pages Books.ScanDownloaded finds in book `b`'s image directory; the `ValueError` a badly named file raises there is not carried into the constructor.
- Utils.AddOutline: the outline item handle returned by `add_outline_item` is modelled as the call's position in the output sequence.
- `settings` (API fragments, paths, picture format and quality), proxy_server/mylogger.py and web_script/web_scroll.js are not part of this model. The API fragments are a parameter of the add-on.
- Asynchrony: the handlers run one after another, as they never interleave.
