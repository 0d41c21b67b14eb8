/**
 * `WQBookAddon`: the proxy add-on. It routes every intercepted response to
 * one of four handlers by its URL, keeps the pool of books still wanted and
 * the set of books finished, and moves a book from the first to the second
 * when its last page is saved.
 */
module Addon {
  import opened Wrappers
  import opened Strings
  import opened Utils
  import opened Pages
  import opened Orders
  import opened Books

  /** The four API URL fragments of the configuration. */
  datatype Api = Api(splitPage: string, reqBeforeSplitPage: string, bookInfo: string, bookmark: string)

  datatype Handler = SplitPageHandler | ReqBeforeSplitPageHandler | BookInfoHandler | BookmarkHandler | NoHandler

  /** The `data` object of a book-information response. */
  datatype BookInfo = BookInfo(author: string, name: string, pages: int)

  /**
   * An intercepted response with its parts already decoded. The URL parsing,
   * the query parsing and the JSON decoding of bodies are not modelled; None
   * stands for a part whose decoding raised (a missing key, a non-integer).
   */
  datatype Request = Request(
    url: string,                      // `flow.request.pretty_url`
    path: string,                     // `urlparse(url).path`
    bid: Option<int>,                 // `int(query["bid"][0])`
    pnum: Option<int>,                // `int(query["pnum"][0])`
    k: Option<string>,                // `query["k"][0]`
    tile: Tile,                       // the tile image of a tile response
    preTileData: Option<string>,      // `json.loads(body)["data"]` of a pre-tile response
    info: Option<BookInfo>,           // `json.loads(body)["data"]` of a book-information response
    bookmarks: Option<seq<Bookmark>>) // `json.loads(body)["data"]` of a bookmark response

  /**
   * `response`: the first API fragment contained in the URL, in the order
   * tile, pre-tile, book information, bookmark, picks the one handler.
   */
  function Route(url: string, api: Api): (h: Handler)
    ensures h == SplitPageHandler <==> Contains(url, api.splitPage)
    ensures h == ReqBeforeSplitPageHandler <==> !Contains(url, api.splitPage) && Contains(url, api.reqBeforeSplitPage)
    ensures h == BookInfoHandler <==>
      !Contains(url, api.splitPage) && !Contains(url, api.reqBeforeSplitPage) && Contains(url, api.bookInfo)
    ensures h == BookmarkHandler <==>
      !Contains(url, api.splitPage) && !Contains(url, api.reqBeforeSplitPage) && !Contains(url, api.bookInfo)
      && Contains(url, api.bookmark)
    ensures h == NoHandler <==>
      !Contains(url, api.splitPage) && !Contains(url, api.reqBeforeSplitPage) && !Contains(url, api.bookInfo)
      && !Contains(url, api.bookmark)
  {
    if Contains(url, api.splitPage) then SplitPageHandler
    else if Contains(url, api.reqBeforeSplitPage) then ReqBeforeSplitPageHandler
    else if Contains(url, api.bookInfo) then BookInfoHandler
    else if Contains(url, api.bookmark) then BookmarkHandler
    else NoHandler
  }

  /**
   * A URL that holds the tile fragment goes to the tile handler, whatever
   * other fragments it holds.
   */
  lemma RouteTileFirst(url: string, api: Api, i: int)
    requires OccursAt(url, api.splitPage, i)
    ensures Route(url, api) == SplitPageHandler
  {
    ContainsIff(url, api.splitPage);
  }

  /**
   * The page ids of a tile URL path: `bid` is the second-to-last `/`-segment
   * and the page number the last. None stands for the IndexError of a path
   * with no `/` and the ValueError of a segment that is not an integer.
   */
  function TileIds(path: string): (r: Option<(int, int)>)
    ensures '/' !in path ==> r.None?
  {
    var segments := Split(path, '/');
    if '/' !in path then SplitNoSeparator(path, '/'); None
    else if |segments| < 2 then None
    else
      match (ParseInt(segments[|segments| - 2]), ParseInt(segments[|segments| - 1]))
      case (Some(bid), Some(pageNum)) => Some((bid, pageNum))
      case _ => None
  }

  /** A path built from a prefix, a book id and a page number gives them back. */
  lemma TileIdsRoundTrip(prefix: string, bid: int, pageNum: int)
    ensures TileIds(prefix + "/" + IntToString(bid) + "/" + IntToString(pageNum)) == Some((bid, pageNum))
  {
    var b, p := IntToString(bid), IntToString(pageNum);
    IntToStringChars(bid);
    IntToStringChars(pageNum);
    assert '/' !in b && '/' !in p by {
      forall i | 0 <= i < |b| ensures b[i] != '/' { assert IsDigit(b[i]) || b[i] == '-'; }
      forall i | 0 <= i < |p| ensures p[i] != '/' { assert IsDigit(p[i]) || p[i] == '-'; }
    }
    SplitNoSeparator(b, '/');
    SplitNoSeparator(p, '/');
    SplitAtSeparator(b, '/', p);
    SplitAtSeparator(prefix, '/', b + "/" + p);
    assert prefix + "/" + b + "/" + p == prefix + ['/'] + (b + ['/'] + p);
    IntToStringRoundTrip(bid);
    IntToStringRoundTrip(pageNum);
  }

  /**
   * `add_split_page` as `process_req_split_page` reads its result: true
   * exactly when the tile completed its page and that completed the book.
   */
  method SubmitTile(book: WQBook, pageNum: int, order: int, tile: Tile, ghost before: BookState)
    returns (isComplete: bool, ghost after: BookState)
    requires book.Valid() && before == book.State()
    modifies book.Repr
    ensures book.Valid() && old(book.Repr) <= book.Repr && fresh(book.Repr - old(book.Repr))
    ensures after == book.State() && TileAdded(before, after, pageNum, order, tile)
    ensures isComplete <==> after.PageComplete(pageNum) && after.AllDownloaded()
  {
    var r := book.AddSplitPage(pageNum, order, tile);
    isComplete := r == Some(true);
    after := book.State();
  }

  class WQBookAddon {
    var wqbookPool: map<int, WQBook>
    var downloadedBook: set<int>
    const splitPageOrder: SplitPageOrder
    const api: Api
    const codec: Codec
    ghost var Repr: set<object>

    ghost predicate Valid()
      reads this, Repr
    {
      && this in Repr
      && splitPageOrder in Repr && splitPageOrder.Valid()
      && (forall b :: b in wqbookPool ==>
            && wqbookPool[b] in Repr
            && wqbookPool[b].Repr <= Repr
            && this !in wqbookPool[b].Repr && splitPageOrder !in wqbookPool[b].Repr
            && wqbookPool[b].bid == b
            && wqbookPool[b].Valid())
      && (forall b, c :: b in wqbookPool && c in wqbookPool && b != c ==>
            wqbookPool[b].Repr !! wqbookPool[c].Repr)
      && wqbookPool.Keys !! downloadedBook
    }

    /**
     * `__init__` and `_init_wqbook_pool`: one fresh book per configured id
     * (a repeated id gets a new book), nothing downloaded, an empty order
     * table. `cached` gives, per book, the pages its image directory holds.
     */
    constructor (bookIds: seq<int>, cached: int -> set<int>, api: Api, codec: Codec)
      ensures Valid() && fresh(Repr - {this})
      ensures wqbookPool.Keys == set i | 0 <= i < |bookIds| :: bookIds[i]
      ensures forall b :: b in wqbookPool ==> wqbookPool[b].Unstarted(cached(b))
      ensures downloadedBook == {} && splitPageOrder.znTable == map[]
      ensures this.api == api && this.codec == codec
    {
      splitPageOrder := new SplitPageOrder();
      this.api := api;
      this.codec := codec;
      wqbookPool := map[];
      downloadedBook := {};
      new;
      Repr := {this, splitPageOrder};
      for i := 0 to |bookIds|
        invariant Valid() && fresh(Repr - {this})
        invariant wqbookPool.Keys == set j | 0 <= j < i :: bookIds[j]
        invariant forall b :: b in wqbookPool ==> wqbookPool[b].Unstarted(cached(b))
        invariant downloadedBook == {} && splitPageOrder.znTable == map[]
      {
        PutBook(bookIds[i], cached(bookIds[i]));
      }
    }

    /** One step of `_init_wqbook_pool`: `wqbook_pool[bid] = WQBook(bid)`. */
    method PutBook(bid: int, downloaded: set<int>)
      requires Valid() && bid !in downloadedBook
      modifies this
      ensures Valid() && fresh(Repr - old(Repr))
      ensures bid in wqbookPool && wqbookPool == old(wqbookPool)[bid := wqbookPool[bid]]
      ensures fresh(wqbookPool[bid]) && wqbookPool[bid].Unstarted(downloaded)
      ensures downloadedBook == old(downloadedBook)
    {
      var book := new WQBook(bid, downloaded);
      wqbookPool := wqbookPool[bid := book];
      Repr := Repr + book.Repr;
    }

    /**
     * `filter_book(bid, page_num)`: skip books not wanted, books finished, and
     * (for a page number that is not None or 0) pages already downloaded.
     */
    function FilterBook(bid: int, pageNum: Option<int>): (r: bool)
      reads this, wqbookPool.Values
      ensures bid !in wqbookPool ==> r
      ensures bid in downloadedBook ==> r
      ensures bid in wqbookPool && bid !in downloadedBook ==>
        (r <==> pageNum.Some? && pageNum.value != 0 && pageNum.value in wqbookPool[bid].downloadedPage)
    {
      if bid !in wqbookPool then true
      else if bid in downloadedBook then true
      else if pageNum.Some? && pageNum.value != 0 && wqbookPool[bid].IsPageDownloaded(pageNum.value) then true
      else false
    }

    /**
     * Under the invariant the downloaded-set test never decides: a finished
     * book has already left the pool.
     */
    lemma FilterBookFinished(bid: int, pageNum: Option<int>)
      requires Valid()
      ensures bid in downloadedBook ==> bid !in wqbookPool && FilterBook(bid, pageNum)
      ensures FilterBook(bid, pageNum) <==>
        bid !in wqbookPool || (pageNum.Some? && pageNum.value != 0 && pageNum.value in wqbookPool[bid].downloadedPage)
    {
    }

    /** The book id parsed and `filter_book(bid)` lets the book through. */
    predicate BookWanted(bid: Option<int>)
      reads this, wqbookPool.Values
    {
      bid.Some? && !FilterBook(bid.value, None)
    }

    /** The book id and the page parsed and `filter_book(bid, page_num)` lets the page through. */
    predicate PageWanted(bid: Option<int>, pnum: Option<int>)
      reads this, wqbookPool.Values
    {
      bid.Some? && pnum.Some? && !FilterBook(bid.value, pnum)
    }

    /** The tile path names a page `filter_book` lets through, and the query holds `k`. */
    predicate TileWanted(path: string, k: Option<string>)
      reads this, wqbookPool.Values
    {
      TileIds(path).Some? && !FilterBook(TileIds(path).value.0, Some(TileIds(path).value.1)) && k.Some?
    }

    /**
     * The end of `process_req_split_page` for book `bid`: it moved from the
     * pool to the finished set exactly when its last tile completed it.
     */
    ghost predicate MovedIfComplete(after: BookState, bid: int, pageNum: int, pool: map<int, WQBook>, finished: set<int>)
      reads this
    {
      if after.PageComplete(pageNum) && after.AllDownloaded()
      then wqbookPool == pool - {bid} && downloadedBook == finished + {bid}
      else wqbookPool == pool && downloadedBook == finished
    }

    /** `process_book_info`: stores the metadata of a wanted, unfinished book. */
    method ProcessBookInfo(bid: Option<int>, info: Option<BookInfo>)
      requires Valid()
      modifies Repr
      ensures Valid() && Repr == old(Repr)
      ensures wqbookPool == old(wqbookPool) && downloadedBook == old(downloadedBook)
      ensures !old(BookWanted(bid)) || info.None? ==> unchanged(old(Repr))
      ensures old(BookWanted(bid)) && info.Some? ==>
        var book := wqbookPool[bid.value];
        InfoAdded(book, info.value.author, info.value.name, info.value.pages) && unchanged(old(Repr) - {book})
    {
      if bid.None? {
        return;
      }
      if FilterBook(bid.value, None) {
        return;
      }
      if info.None? {
        return;
      }
      var book := wqbookPool[bid.value];
      var _ := book.AddBookInfo(info.value.author, info.value.name, info.value.pages);
    }

    /** `process_req_before_split_page`: records the tile key of a pre-tile response. */
    method ProcessReqBeforeSplitPage(bid: Option<int>, pnum: Option<int>, k: Option<string>, data: Option<string>)
      requires Valid()
      modifies Repr
      ensures Valid() && Repr == old(Repr)
      ensures unchanged(old(Repr) - {splitPageOrder})
      ensures splitPageOrder.znTable == if old(PageWanted(bid, pnum)) && k.Some? && data.Some?
        then AddToken(old(splitPageOrder.znTable), codec, k.value, data.value)
        else old(splitPageOrder.znTable)
    {
      if bid.None? || pnum.None? {
        return;
      }
      if FilterBook(bid.value, pnum) {
        return;
      }
      if k.None? || data.None? {
        return;
      }
      splitPageOrder.Add(codec, k.value, data.value);
    }

    /**
     * `process_req_split_page`: a tile of a wanted page whose order the table
     * knows goes to its book; when that completes the book, the book moves
     * from the pool to the finished set. Nothing else changes.
     */
    method ProcessReqSplitPage(path: string, k: Option<string>, tile: Tile)
      requires Valid()
      modifies Repr
      ensures Valid() && old(Repr) <= Repr && fresh(Repr - old(Repr))
      ensures !old(TileWanted(path, k)) ==> Repr == old(Repr) && unchanged(old(Repr))
      ensures old(TileWanted(path, k)) ==>
        var bid, pageNum := TileIds(path).value.0, TileIds(path).value.1;
        var resolved := GetToken(old(splitPageOrder.znTable), codec, k.value);
        var book := old(wqbookPool[bid]);
        && splitPageOrder.znTable == resolved.table
        && (resolved.order == -1 ==> Repr == old(Repr) && unchanged(old(Repr) - {splitPageOrder}))
        && (resolved.order != -1 ==>
              && TileAdded(old(book.State()), book.State(), pageNum, resolved.order, tile)
              && MovedIfComplete(book.State(), bid, pageNum, old(wqbookPool), old(downloadedBook))
              && forall c :: c in old(wqbookPool) && c != bid ==> unchanged(old(wqbookPool[c].Repr)))
    {
      var ids := TileIds(path);
      if ids.None? {
        return;
      }
      var bid, pageNum := ids.value.0, ids.value.1;
      if FilterBook(bid, Some(pageNum)) {
        return;
      }
      if k.None? {
        return;
      }
      ghost var book, before := wqbookPool[bid], wqbookPool[bid].State();
      var order := ResolveOrder(k.value);
      if order == -1 {
        return;
      }
      DeliverTile(bid, pageNum, order, tile, book, before);
    }

    /** `self.split_page_order.get(k)`: only the order table changes. */
    method ResolveOrder(k: string) returns (order: int)
      requires Valid()
      modifies splitPageOrder
      ensures Valid()
      ensures Resolution(order, splitPageOrder.znTable) == GetToken(old(splitPageOrder.znTable), codec, k)
      ensures order == -1 ==> unchanged(splitPageOrder)
    {
      order := splitPageOrder.Get(codec, k);
    }

    /**
     * The end of `process_req_split_page`: the tile goes to its book, and a
     * book that reports completion moves from the pool to the finished set.
     */
    method DeliverTile(bid: int, pageNum: int, order: int, tile: Tile, ghost book: WQBook, ghost before: BookState)
      requires Valid() && bid in wqbookPool && book == wqbookPool[bid] && before == book.State()
      modifies Repr
      ensures Valid() && old(Repr) <= Repr && fresh(Repr - old(Repr))
      ensures splitPageOrder.znTable == old(splitPageOrder.znTable)
      ensures TileAdded(before, book.State(), pageNum, order, tile)
      ensures MovedIfComplete(book.State(), bid, pageNum, old(wqbookPool), old(downloadedBook))
      ensures forall c :: c in old(wqbookPool) && c != bid ==> unchanged(old(wqbookPool[c].Repr))
    {
      var isComplete, after := FeedBook(bid, pageNum, order, tile, book, before);
      if isComplete {
        Evict(bid);
      }
    }

    /**
     * `self.wqbook_pool[bid].add_split_page(page_num, order, body)`: the book
     * stores the tile, and the result says whether that completed it; the
     * other books, the pool and the order table stay as they were.
     */
    method FeedBook(bid: int, pageNum: int, order: int, tile: Tile, ghost book: WQBook, ghost before: BookState)
      returns (isComplete: bool, ghost after: BookState)
      requires Valid() && bid in wqbookPool && book == wqbookPool[bid] && before == book.State()
      modifies Repr
      ensures Valid() && old(Repr) <= Repr && fresh(Repr - old(Repr))
      ensures wqbookPool == old(wqbookPool) && downloadedBook == old(downloadedBook)
      ensures splitPageOrder.znTable == old(splitPageOrder.znTable)
      ensures after == book.State() && TileAdded(before, after, pageNum, order, tile)
      ensures isComplete <==> after.PageComplete(pageNum) && after.AllDownloaded()
      ensures forall c :: c in old(wqbookPool) && c != bid ==> unchanged(old(wqbookPool[c].Repr))
    {
      isComplete, after := SubmitTile(wqbookPool[bid], pageNum, order, tile, before);
      Repr := Repr + book.Repr;
      // the other books lie outside the footprint the call could change
      forall c | c in wqbookPool && c != bid
        ensures wqbookPool[c].Valid() && wqbookPool[c].Repr == old(wqbookPool[c].Repr)
        ensures unchanged(old(wqbookPool[c].Repr))
      {
        assert wqbookPool[c] !in old(book.Repr) && old(wqbookPool[c].Repr) !! old(book.Repr);
      }
    }

    /** The completion branch: the finished book leaves the pool for the downloaded set. */
    method Evict(bid: int)
      requires Valid() && bid in wqbookPool
      modifies this
      ensures Valid() && Repr == old(Repr)
      ensures wqbookPool == old(wqbookPool) - {bid} && downloadedBook == old(downloadedBook) + {bid}
      ensures forall pageNum :: FilterBook(bid, pageNum)
    {
      downloadedBook := downloadedBook + {bid};
      wqbookPool := wqbookPool - {bid};
    }

    /** `process_bookmark`: keeps the first bookmark tree of a wanted, unfinished book. */
    method ProcessBookmark(bid: Option<int>, bookmarks: Option<seq<Bookmark>>)
      requires Valid()
      modifies Repr
      ensures Valid() && Repr == old(Repr)
      ensures wqbookPool == old(wqbookPool) && downloadedBook == old(downloadedBook)
      ensures !old(BookWanted(bid)) || bookmarks.None? ==> unchanged(old(Repr))
      ensures old(BookWanted(bid)) && bookmarks.Some? ==>
        var book := wqbookPool[bid.value];
        BookmarkAdded(book, bookmarks.value) && unchanged(old(Repr) - {book})
    {
      if bid.None? {
        return;
      }
      if FilterBook(bid.value, None) {
        return;
      }
      if bookmarks.None? {
        return;
      }
      var book := wqbookPool[bid.value];
      book.AddBookmark(bookmarks.value);
    }

    /**
     * `response`: the routed handler, and only it, takes effect; a response no
     * handler claims changes nothing. Only the tile handler evicts books.
     */
    method Response(req: Request) returns (h: Handler)
      requires Valid()
      modifies Repr
      ensures Valid() && old(Repr) <= Repr && fresh(Repr - old(Repr))
      ensures h == Route(req.url, api)
      ensures h != SplitPageHandler ==>
        Repr == old(Repr) && wqbookPool == old(wqbookPool) && downloadedBook == old(downloadedBook)
      ensures h == NoHandler ==> unchanged(old(Repr))
      ensures h == SplitPageHandler ==>
        if old(TileWanted(req.path, req.k)) then
          var bid, pageNum := TileIds(req.path).value.0, TileIds(req.path).value.1;
          var resolved := GetToken(old(splitPageOrder.znTable), codec, req.k.value);
          var book := old(wqbookPool[bid]);
          && splitPageOrder.znTable == resolved.table
          && (resolved.order == -1 ==> Repr == old(Repr) && unchanged(old(Repr) - {splitPageOrder}))
          && (resolved.order != -1 ==>
                && TileAdded(old(book.State()), book.State(), pageNum, resolved.order, req.tile)
                && MovedIfComplete(book.State(), bid, pageNum, old(wqbookPool), old(downloadedBook))
                && forall c :: c in old(wqbookPool) && c != bid ==> unchanged(old(wqbookPool[c].Repr)))
        else Repr == old(Repr) && unchanged(old(Repr))
      ensures h == ReqBeforeSplitPageHandler ==>
        && unchanged(old(Repr) - {splitPageOrder})
        && splitPageOrder.znTable == if old(PageWanted(req.bid, req.pnum)) && req.k.Some? && req.preTileData.Some?
             then AddToken(old(splitPageOrder.znTable), codec, req.k.value, req.preTileData.value)
             else old(splitPageOrder.znTable)
      ensures h == BookInfoHandler ==>
        if old(BookWanted(req.bid)) && req.info.Some? then
          var book := wqbookPool[req.bid.value];
          InfoAdded(book, req.info.value.author, req.info.value.name, req.info.value.pages)
          && unchanged(old(Repr) - {book})
        else unchanged(old(Repr))
      ensures h == BookmarkHandler ==>
        if old(BookWanted(req.bid)) && req.bookmarks.Some? then
          var book := wqbookPool[req.bid.value];
          BookmarkAdded(book, req.bookmarks.value) && unchanged(old(Repr) - {book})
        else unchanged(old(Repr))
    {
      h := Route(req.url, api);
      match h
      case SplitPageHandler => ProcessReqSplitPage(req.path, req.k, req.tile);
      case ReqBeforeSplitPageHandler => ProcessReqBeforeSplitPage(req.bid, req.pnum, req.k, req.preTileData);
      case BookInfoHandler => ProcessBookInfo(req.bid, req.info);
      case BookmarkHandler => ProcessBookmark(req.bid, req.bookmarks);
      case NoHandler =>
    }
  }
}
