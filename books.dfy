/**
 * `WQBook`: one book being downloaded. It creates page accumulators on demand,
 * marks a page downloaded once its accumulator is complete, and hands the book
 * over to PDF assembly once every page is there.
 */
module Books {
  import opened Wrappers
  import opened Strings
  import opened Utils
  import opened Pages

  /** A PDF assembly handed over to the background merge: output file name and bookmarks. */
  datatype PdfJob = PdfJob(output: string, bookmark: Option<seq<Bookmark>>)

  /** What `add_book_info` reports about the pages cached on disk. */
  datatype InfoReport =
    | Quiet                       // already set, or nothing cached
    | AllCached                   // the cached page count equals the total
    | Missing(pages: seq<int>)    // the pages still to fetch

  /** `losed` lists exactly the pages 1..total not downloaded, in ascending order. */
  ghost predicate ListsMissing(losed: seq<int>, downloaded: set<int>, total: int)
  {
    && (forall p :: p in losed <==> 1 <= p <= total && p !in downloaded)
    && (forall i, j :: 0 <= i < j < |losed| ==> losed[i] < losed[j])
  }

  /** The missing-page scan of `add_book_info`. */
  method MissingPages(downloaded: set<int>, total: int) returns (losed: seq<int>)
    ensures ListsMissing(losed, downloaded, total)
  {
    losed := [];
    var i := 1;
    while i < total + 1
      invariant 1 <= i <= if total < 1 then 1 else total + 1
      invariant forall p :: p in losed <==> 1 <= p < i && p !in downloaded
      invariant forall k :: 0 <= k < |losed| ==> losed[k] < i
      invariant forall k, m :: 0 <= k < m < |losed| ==> losed[k] < losed[m]
    {
      if i !in downloaded {
        losed := losed + [i];
      }
      i := i + 1;
    }
  }

  /** Two strictly increasing lists with the same members are the same list. */
  lemma {:induction false} IncreasingUnique(a: seq<int>, b: seq<int>)
    requires forall i, j :: 0 <= i < j < |a| ==> a[i] < a[j]
    requires forall i, j :: 0 <= i < j < |b| ==> b[i] < b[j]
    requires forall x :: x in a <==> x in b
    ensures a == b
    decreases |a|
  {
    assert a != [] ==> a[0] in a && a[0] in b;
    assert b != [] ==> b[0] in b && b[0] in a;
    if a != [] && b != [] {
      // both heads are the least member
      var ka :| 0 <= ka < |a| && a[ka] == b[0];
      var kb :| 0 <= kb < |b| && b[kb] == a[0];
      assert a[0] == b[0];
      TailMembers(a, b);
      TailMembers(b, a);
      IncreasingUnique(a[1..], b[1..]);
      assert a == [a[0]] + a[1..] && b == [b[0]] + b[1..];
    }
  }

  /** With equal heads and the same members, a strictly increasing list's tail lies in the other's tail. */
  lemma TailMembers(a: seq<int>, b: seq<int>)
    requires a != [] && b != [] && a[0] == b[0]
    requires forall i, j :: 0 <= i < j < |a| ==> a[i] < a[j]
    requires forall x :: x in a ==> x in b
    ensures forall x :: x in a[1..] ==> x in b[1..]
  {
    forall x | x in a[1..] ensures x in b[1..] {
      var k :| 0 <= k < |a[1..]| && a[1..][k] == x;
      assert a[0] < a[k + 1] && a[k + 1] in a;
      var m :| 0 <= m < |b| && b[m] == x;
      assert b[1..][m - 1] == x;
    }
  }

  /** The missing-page list is determined by the downloaded set and the total. */
  lemma MissingPagesUnique(a: seq<int>, b: seq<int>, downloaded: set<int>, total: int)
    requires ListsMissing(a, downloaded, total) && ListsMissing(b, downloaded, total)
    ensures a == b
  {
    IncreasingUnique(a, b);
  }

  /**
   * `{bid}_{good_name}({good_author}).pdf`, with the forbidden characters of the
   * title and the author deleted (`be_good_name` with an empty replacement,
   * stated as the one-pass substitution it equals).
   */
  function PdfFileName(bid: int, name: string, author: string): string
  {
    IntToString(bid) + "_" + Substitute(name, Forbidden, "") + "(" + Substitute(author, Forbidden, "") + ").pdf"
  }

  /** The output file name `_save_as_pdf` builds from the sanitised title and author. */
  method PdfOutput(bid: int, name: string, author: string) returns (output: string)
    ensures output == PdfFileName(bid, name, author)
    ensures Clean(output)
  {
    assert Clean("");
    var goodName := BeGoodName(name, "");
    var goodAuthor := BeGoodName(author, "");
    output := IntToString(bid) + "_" + goodName + "(" + goodAuthor + ").pdf";
    PdfFileNameClean(bid, name, author);
  }

  lemma CleanConcat(a: string, b: string)
    requires Clean(a) && Clean(b)
    ensures Clean(a + b)
  {
    forall i | 0 <= i < |a + b| ensures (a + b)[i] !in Forbidden {
      if i >= |a| { assert (a + b)[i] == b[i - |a|]; }
    }
  }

  /** The sanitised title or author holds no forbidden character. */
  lemma SanitizedClean(s: string)
    ensures Clean(Substitute(s, Forbidden, ""))
  {
    SubstituteIsFree(s, Forbidden, "");
  }

  lemma IdClean(bid: int)
    ensures Clean(IntToString(bid))
  {
    IntToStringChars(bid);
    var id := IntToString(bid);
    forall i | 0 <= i < |id| ensures id[i] !in Forbidden {
      assert IsDigit(id[i]) || id[i] == '-';
    }
  }

  lemma JoinedClean(id: string, goodName: string, goodAuthor: string)
    requires Clean(id) && Clean(goodName) && Clean(goodAuthor)
    ensures Clean(id + "_" + goodName + "(" + goodAuthor + ").pdf")
  {
    assert Clean("_") && Clean("(") && Clean(").pdf");
    CleanConcat(id, "_");
    CleanConcat(id + "_", goodName);
    CleanConcat(id + "_" + goodName, "(");
    CleanConcat(id + "_" + goodName + "(", goodAuthor);
    CleanConcat(id + "_" + goodName + "(" + goodAuthor, ").pdf");
  }

  /** The PDF file name holds none of the nine characters `be_good_name` removes, whatever the title and author. */
  lemma PdfFileNameClean(bid: int, name: string, author: string)
    ensures Clean(PdfFileName(bid, name, author))
  {
    IdClean(bid);
    SanitizedClean(name);
    SanitizedClean(author);
    JoinedClean(IntToString(bid), Substitute(name, Forbidden, ""), Substitute(author, Forbidden, ""));
  }

  /** The numeric stems of the names in `s` that have one. */
  ghost function Stems(s: seq<string>): set<int>
  {
    set x | x in s && StemNumber(x).Some? :: StemNumber(x).value
  }

  lemma StemsSnoc(s: seq<string>, x: string)
    requires StemNumber(x).Some?
    ensures Stems(s + [x]) == Stems(s) + {StemNumber(x).value}
  {
    assert forall y :: y in s + [x] <==> y in s || y == x;
  }

  /**
   * The page numbers `_init_images_path` reads from a book's image directory:
   * the stems of the files with the picture suffix. None stands for the
   * ValueError raised by a stem that is not an integer.
   */
  method ScanDownloaded(names: seq<string>, suffix: string) returns (r: Option<set<int>>)
    ensures r.None? <==> exists i :: 0 <= i < |names| && Suffix(names[i]) == "." + suffix && StemNumber(names[i]).None?
    ensures r.Some? ==> r.value == Stems(Kept(names, "." + suffix))
  {
    var imgs := GetImgsFiles(names, suffix);
    if imgs.None? {
      return None;
    }
    var files := imgs.value;
    ListedStemsParse(files, names, "." + suffix);
    var downloaded := CollectStems(files);
    ListedStems(files, names, "." + suffix);
    r := Some(downloaded);
  }

  /** The loop over the listed images: `downloaded_page.add(int(img.stem))` for each. */
  method CollectStems(files: seq<string>) returns (downloaded: set<int>)
    requires forall m :: 0 <= m < |files| ==> StemNumber(files[m]).Some?
    ensures downloaded == Stems(files)
  {
    downloaded := {};
    for k := 0 to |files|
      invariant downloaded == Stems(files[..k])
    {
      var n := StemNumber(files[k]);
      assert files[..k + 1] == files[..k] + [files[k]];
      StemsSnoc(files[..k], files[k]);
      downloaded := downloaded + {n.value};
    }
    assert files[..|files|] == files;
  }

  /** Every listed file has a numeric stem when no kept name lacks one. */
  lemma ListedStemsParse(files: seq<string>, names: seq<string>, want: string)
    requires forall x :: x in files <==> x in names && Suffix(x) == want
    requires !exists i :: 0 <= i < |names| && Suffix(names[i]) == want && StemNumber(names[i]).None?
    ensures forall m :: 0 <= m < |files| ==> StemNumber(files[m]).Some?
  {
    forall m | 0 <= m < |files|
      ensures StemNumber(files[m]).Some?
    {
      assert files[m] in names;
      var i :| 0 <= i < |names| && names[i] == files[m];
    }
  }

  /** A listing with the kept members has the kept names' stems. */
  lemma ListedStems(files: seq<string>, names: seq<string>, want: string)
    requires forall x :: x in files <==> x in names && Suffix(x) == want
    ensures Stems(files) == Stems(Kept(names, want))
  {
    KeptMembers(names, want);
  }

  class WQBook {
    const bid: int
    var name: string
    var author: string
    var totalPage: int
    /** None until a bookmark response arrived. */
    var bookmark: Option<seq<Bookmark>>
    var pages: map<int, OnePage>
    var downloadedPage: set<int>
    /** The full page images written to the book's image directory in this session. */
    var savedImages: map<int, Layout>
    /** The PDF assemblies started for this book. */
    var pdfJobs: seq<PdfJob>

    /** The pages the scan of the image directory found when the book was created. */
    ghost var cached: set<int>
    /** The tiles each page accumulator holds, kept equal to them by Valid. */
    ghost var tiles: map<int, map<int, Tile>>
    /** The book and its page accumulators. */
    ghost var Repr: set<object>

    ghost predicate Valid()
      reads this, Repr
    {
      && this in Repr
      && (forall p :: p in pages ==> pages[p] in Repr && pages[p].Valid())
      && tiles.Keys == pages.Keys
      && (forall p :: p in pages ==> tiles[p] == pages[p].splitPages)
      && (forall p, q :: p in pages && q in pages && p != q ==> pages[p] != pages[q])
      && savedImages.Keys <= downloadedPage
    }

    /**
     * A page is downloaded iff it was found on disk at the start or saved
     * since; the constructor establishes this and every method keeps it.
     */
    ghost predicate Accounted()
      reads this
    {
      downloadedPage == cached + savedImages.Keys
    }

    /** The tiles page `p` holds so far. */
    ghost function Slots(p: int): map<int, Tile>
      reads this
    {
      if p in tiles then tiles[p] else map[]
    }

    /** The book's fields and its pages' tiles. */
    ghost function State(): BookState
      reads this
    {
      BookState(bid, name, author, totalPage, bookmark, pages, tiles, downloadedPage, savedImages, pdfJobs)
    }

    /** The state `WQBook(bid)` leaves: no metadata, bookmark, pages or PDF jobs yet. */
    ghost predicate Unstarted(downloaded: set<int>)
      reads this
    {
      && name == "" && author == "" && totalPage == 0 && bookmark == None
      && pages == map[] && downloadedPage == downloaded && savedImages == map[] && pdfJobs == []
    }

    /**
     * `WQBook(bid)`: no metadata yet; `downloaded` is what the scan of the
     * book's image directory found (see ScanDownloaded).
     */
    constructor (bid: int, downloaded: set<int>)
      ensures Valid() && fresh(Repr) && Accounted()
      ensures this.bid == bid && Unstarted(downloaded)
    {
      this.bid := bid;
      name := "";
      author := "";
      totalPage := 0;
      bookmark := None;
      pages := map[];
      tiles := map[];
      downloadedPage := downloaded;
      cached := downloaded;
      savedImages := map[];
      pdfJobs := [];
      Repr := {this};
    }

    /**
     * `add_book_info`: ignored once both the name and the total are set;
     * otherwise stores the metadata and reports the cached pages: nothing when
     * none are cached, AllCached when their count equals the total, else the
     * missing pages.
     */
    method AddBookInfo(author: string, bookName: string, totalPage: int) returns (report: InfoReport)
      requires Valid()
      modifies this
      ensures cached == old(cached) && (old(Accounted()) ==> Accounted())
      ensures Valid() && Repr == old(Repr)
      ensures InfoAdded(this, author, bookName, totalPage)
      ensures old(name) != "" && old(this.totalPage) != 0 ==> unchanged(this) && report == Quiet
      ensures !(old(name) != "" && old(this.totalPage) != 0) ==>
        (report == Quiet <==> |downloadedPage| == 0) &&
        (report == AllCached <==> |downloadedPage| != 0 && |downloadedPage| == totalPage) &&
        (report.Missing? ==> ListsMissing(report.pages, downloadedPage, totalPage))
    {
      if name != "" && this.totalPage != 0 {
        return Quiet;
      }
      this.author := author;
      name := bookName;
      this.totalPage := totalPage;
      var downloadedPageCount := |downloadedPage|;
      if downloadedPageCount == 0 {
        return Quiet;
      }
      if downloadedPageCount == totalPage {
        return AllCached;
      }
      var losed := MissingPages(downloadedPage, totalPage);
      report := Missing(losed);
    }

    /** `add_bookmark`: only the first bookmark is kept. */
    method AddBookmark(b: seq<Bookmark>)
      requires Valid()
      modifies this
      ensures cached == old(cached) && (old(Accounted()) ==> Accounted())
      ensures Valid() && Repr == old(Repr)
      ensures BookmarkAdded(this, b)
    {
      if bookmark.Some? {
        return;
      }
      bookmark := Some(b);
    }

    /** `_get_one_page`: the existing accumulator, or a fresh empty one stored under `pageNum`. */
    method GetOnePage(pageNum: int) returns (page: OnePage)
      requires Valid()
      modifies this
      ensures cached == old(cached) && (old(Accounted()) ==> Accounted())
      ensures Valid()
      ensures pageNum in pages && pages[pageNum] == page
      ensures pageNum in old(pages) ==>
        pages == old(pages) && page == old(pages[pageNum]) && tiles == old(tiles) && Repr == old(Repr)
      ensures pageNum !in old(pages) ==>
        && fresh(page) && pages == old(pages)[pageNum := page] && page.splitPages == map[] && page.addedPages == {}
        && tiles == old(tiles)[pageNum := map[]]
        && Repr == old(Repr) + {page}
      ensures name == old(name) && author == old(author) && totalPage == old(totalPage) && bookmark == old(bookmark)
      ensures downloadedPage == old(downloadedPage) && savedImages == old(savedImages) && pdfJobs == old(pdfJobs)
    {
      if pageNum in pages {
        return pages[pageNum];
      }
      page := new OnePage();
      pages := pages[pageNum := page];
      tiles := tiles[pageNum := map[]];
      Repr := Repr + {page};
    }

    /** `is_page_downloaded`. */
    function IsPageDownloaded(pageNum: int): (r: bool)
      reads this
      ensures Accounted() ==> (r <==> pageNum in cached || pageNum in savedImages)
    {
      pageNum in downloadedPage
    }

    /** `_save_as_pdf`: names the output after the sanitised title and author and starts the merge. */
    method SaveAsPdf()
      modifies this
      ensures cached == old(cached) && (old(Accounted()) ==> Accounted())
      ensures pdfJobs == old(pdfJobs) + [PdfJob(PdfFileName(bid, name, author), bookmark)]
      ensures name == old(name) && author == old(author) && totalPage == old(totalPage) && bookmark == old(bookmark)
      ensures pages == old(pages) && downloadedPage == old(downloadedPage) && savedImages == old(savedImages)
      ensures tiles == old(tiles) && Repr == old(Repr)
    {
      var outputPdf := PdfOutput(bid, name, author);
      pdfJobs := pdfJobs + [PdfJob(outputPdf, bookmark)];
    }

    /** The first half of `add_split_page`: fetch or create the page's accumulator and store the tile in it. */
    method StoreTile(pageNum: int, index: int, image: Tile) returns (page: OnePage)
      requires Valid()
      modifies Repr
      ensures cached == old(cached) && (old(Accounted()) ==> Accounted())
      ensures Valid() && old(Repr) <= Repr && fresh(Repr - old(Repr))
      ensures pageNum in pages && pages[pageNum] == page
      ensures TileStored(old(State()), State(), pageNum, index, image)
    {
      ghost var tiles0, before := tiles, Slots(pageNum);
      page := GetOnePage(pageNum);
      assert page.splitPages == before;
      page.AddSplitPage(index, image);
      tiles := tiles0[pageNum := page.splitPages];
      assert Valid() by {
        forall p | p in pages ensures pages[p].Valid() && tiles[p] == pages[p].splitPages {
          if p != pageNum {
            assert pages[p] in old(pages).Values && pages[p] != page;
          }
        }
      }
    }

    /**
     * The second half of `add_split_page`: a page holding six tiles is
     * composed, saved and marked downloaded, and the result says whether the
     * book is now complete (then PDF assembly starts). None is the KeyError of
     * a missing slot in 0..5.
     */
    method SaveIfEnough(pageNum: int, page: OnePage) returns (r: Option<bool>)
      requires Valid() && pageNum in pages && pages[pageNum] == page
      modifies this
      ensures cached == old(cached) && (old(Accounted()) ==> Accounted())
      ensures Valid() && Repr == old(Repr)
      ensures PageSaved(old(State()), State(), pageNum)
      ensures r.None? <==> |Slots(pageNum)| == SplitCount && !HasAllSlots(Slots(pageNum))
      ensures r.Some? ==> (r.value <==> State().PageComplete(pageNum) && State().AllDownloaded())
    {
      if page.IsEnough() {
        var full := page.SaveFullPage();
        if full.None? {
          return None;
        }
        var finished := MarkSaved(pageNum, full.value);
        return Some(finished);
      }
      return Some(false);
    }

    /**
     * The end of `add_split_page` for a saved page: remember its image, mark
     * it downloaded, and start the PDF when that was the last page.
     */
    method MarkSaved(pageNum: int, image: Layout) returns (finished: bool)
      requires Valid()
      modifies this
      ensures cached == old(cached) && (old(Accounted()) ==> Accounted())
      ensures Valid() && Repr == old(Repr) && pages == old(pages) && tiles == old(tiles)
      ensures savedImages == old(savedImages)[pageNum := image] && downloadedPage == old(downloadedPage) + {pageNum}
      ensures finished <==> totalPage != 0 && |downloadedPage| == totalPage
      ensures pdfJobs == old(pdfJobs) + if finished then [PdfJob(PdfFileName(bid, name, author), bookmark)] else []
      ensures name == old(name) && author == old(author) && totalPage == old(totalPage) && bookmark == old(bookmark)
    {
      RecordSaved(pageNum, image);
      finished := totalPage != 0 && |downloadedPage| == totalPage;
      if finished {
        SaveAsPdf();
      }
    }

    /** The saved page's image is remembered and the page marked downloaded. */
    method RecordSaved(pageNum: int, image: Layout)
      requires Valid()
      modifies this
      ensures cached == old(cached) && (old(Accounted()) ==> Accounted())
      ensures Valid() && Repr == old(Repr) && pages == old(pages) && tiles == old(tiles)
      ensures savedImages == old(savedImages)[pageNum := image] && downloadedPage == old(downloadedPage) + {pageNum}
      ensures name == old(name) && author == old(author) && totalPage == old(totalPage) && bookmark == old(bookmark)
      ensures pdfJobs == old(pdfJobs)
    {
      savedImages := savedImages[pageNum := image];
      downloadedPage := downloadedPage + {pageNum};
    }

    /**
     * `add_split_page(page_num, index, image)`: stores the tile in the page's
     * accumulator (created if needed, never replaced). A page that now holds
     * six tiles is composed, saved and marked downloaded, and the result says
     * whether the whole book is now downloaded, in which case PDF assembly
     * starts. None stands for the KeyError of a page with six tiles but a
     * slot in 0..5 empty.
     */
    method AddSplitPage(pageNum: int, index: int, image: Tile) returns (r: Option<bool>)
      requires Valid()
      modifies Repr
      ensures cached == old(cached) && (old(Accounted()) ==> Accounted())
      ensures Valid() && old(Repr) <= Repr && fresh(Repr - old(Repr))
      ensures TileAdded(old(State()), State(), pageNum, index, image)
      ensures r.None? <==> |Slots(pageNum)| == SplitCount && !HasAllSlots(Slots(pageNum))
      ensures r.Some? ==> (r.value <==> State().PageComplete(pageNum) && State().AllDownloaded())
    {
      var page := StoreTile(pageNum, index, image);
      r := SaveIfEnough(pageNum, page);
    }
  }

  /**
   * What `add_book_info` does to a book: ignored once both the name and the
   * total are set, otherwise the three fields are stored; nothing else changes.
   */
  twostate predicate InfoAdded(book: WQBook, author: string, bookName: string, totalPage: int)
    reads book
  {
    && (if old(book.name) != "" && old(book.totalPage) != 0
        then book.name == old(book.name) && book.author == old(book.author) && book.totalPage == old(book.totalPage)
        else book.name == bookName && book.author == author && book.totalPage == totalPage)
    && book.bookmark == old(book.bookmark) && book.pages == old(book.pages)
    && book.downloadedPage == old(book.downloadedPage) && book.savedImages == old(book.savedImages)
    && book.pdfJobs == old(book.pdfJobs)
  }

  /** What `add_bookmark` does to a book: the first bookmark is kept, nothing else changes. */
  twostate predicate BookmarkAdded(book: WQBook, b: seq<Bookmark>)
    reads book
  {
    && book.bookmark == (if old(book.bookmark).Some? then old(book.bookmark) else Some(b))
    && book.name == old(book.name) && book.author == old(book.author) && book.totalPage == old(book.totalPage)
    && book.pages == old(book.pages) && book.downloadedPage == old(book.downloadedPage)
    && book.savedImages == old(book.savedImages) && book.pdfJobs == old(book.pdfJobs)
  }

  /** A book's fields and the tiles of its pages at one moment. */
  datatype BookState = BookState(
    bid: int, name: string, author: string, totalPage: int, bookmark: Option<seq<Bookmark>>,
    pages: map<int, OnePage>, slots: map<int, map<int, Tile>>,
    downloadedPage: set<int>, savedImages: map<int, Layout>, pdfJobs: seq<PdfJob>)
  {
    /** The tiles page `p` holds. */
    function Slots(p: int): map<int, Tile>
    {
      if p in slots then slots[p] else map[]
    }

    /** Page `p` holds six tiles filling slots 0..5, so `save_full_page` succeeds on it. */
    predicate PageComplete(p: int)
    {
      |Slots(p)| == SplitCount && HasAllSlots(Slots(p))
    }

    /** The page total is known and that many pages are downloaded. */
    predicate AllDownloaded()
    {
      totalPage != 0 && |downloadedPage| == totalPage
    }
  }

  /**
   * What `add_split_page(page_num, index, image)` does to a book, from state
   * `before` to state `after`: the page's accumulator (created if needed,
   * never replaced) gets the tile at `index`, other pages keep their tiles;
   * a complete page is composed, saved and marked downloaded, and when that
   * completes the book a PDF job starts.
   */
  predicate TileAdded(before: BookState, after: BookState, pageNum: int, index: int, image: Tile)
  {
    && after.bid == before.bid
    && pageNum in after.pages && after.pages == before.pages[pageNum := after.pages[pageNum]]
    && (pageNum in before.pages ==> after.pages[pageNum] == before.pages[pageNum])
    && after.slots == before.slots[pageNum := before.Slots(pageNum)[index := image]]
    && after.downloadedPage == before.downloadedPage + (if after.PageComplete(pageNum) then {pageNum} else {})
    && after.savedImages == (if after.PageComplete(pageNum)
         then before.savedImages[pageNum := Composite(SlotTiles(after.Slots(pageNum)))] else before.savedImages)
    && after.pdfJobs == before.pdfJobs + (if after.PageComplete(pageNum) && after.AllDownloaded()
         then [PdfJob(PdfFileName(after.bid, after.name, after.author), after.bookmark)] else [])
    && after.name == before.name && after.author == before.author
    && after.totalPage == before.totalPage && after.bookmark == before.bookmark
  }

  /** The first half of TileAdded: the tile is stored, nothing is saved yet. */
  predicate TileStored(before: BookState, after: BookState, pageNum: int, index: int, image: Tile)
  {
    && after.bid == before.bid
    && pageNum in after.pages && after.pages == before.pages[pageNum := after.pages[pageNum]]
    && (pageNum in before.pages ==> after.pages[pageNum] == before.pages[pageNum])
    && after.slots == before.slots[pageNum := before.Slots(pageNum)[index := image]]
    && after.downloadedPage == before.downloadedPage && after.savedImages == before.savedImages
    && after.pdfJobs == before.pdfJobs
    && after.name == before.name && after.author == before.author
    && after.totalPage == before.totalPage && after.bookmark == before.bookmark
  }

  /** The second half of TileAdded: a complete page is saved, which may start the PDF. */
  predicate PageSaved(before: BookState, after: BookState, pageNum: int)
  {
    && after.bid == before.bid && after.pages == before.pages && after.slots == before.slots
    && after.downloadedPage == before.downloadedPage + (if after.PageComplete(pageNum) then {pageNum} else {})
    && after.savedImages == (if after.PageComplete(pageNum)
         then before.savedImages[pageNum := Composite(SlotTiles(after.Slots(pageNum)))] else before.savedImages)
    && after.pdfJobs == before.pdfJobs + (if after.PageComplete(pageNum) && after.AllDownloaded()
         then [PdfJob(PdfFileName(after.bid, after.name, after.author), after.bookmark)] else [])
    && after.name == before.name && after.author == before.author
    && after.totalPage == before.totalPage && after.bookmark == before.bookmark
  }
}
