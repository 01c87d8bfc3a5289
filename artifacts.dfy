/** The entity model: shelves, books, chapters and pages, each with an optional
    parent reference, built either as a bare lookup object (`fromClient`) or by
    reading a directory of the local vault. */
module Artifacts {
  import opened Base
  import opened Paths

  /** One entry of a directory as os.listdir, os.path.isdir and open().read() see it;
      a directory carries its own listing. */
  datatype Entry = File(name: string, text: string) | Dir(name: string, listing: seq<Entry>)

  /** The `details` dict. Remote entities carry their id and `updated_at`, the latter
      already converted to integer UTC microseconds; a missing key is `None`. */
  datatype Details = Details(id: Option<int>, updatedAt: Option<int>)

  const NoDetails := Details(None, None)

  /** The four item kinds (BookstackItems). */
  datatype ItemKind = ShelfItem | BookItem | ChapterItem | PageItem

  /** One entity of any kind, as `_retrieve_from_client_map` accepts and returns. */
  datatype Artifact =
    | ShelfObj(shelf: Shelf)
    | BookObj(book: Book)
    | ChapterObj(chapter: Chapter)
    | PageObj(page: Page)
  {
    function Kind(): ItemKind {
      match this
      case ShelfObj(_) => ShelfItem
      case BookObj(_) => BookItem
      case ChapterObj(_) => ChapterItem
      case PageObj(_) => PageItem
    }

    function Details(): Details {
      match this
      case ShelfObj(s) => s.details
      case BookObj(b) => b.details
      case ChapterObj(c) => c.details
      case PageObj(p) => p.details
    }

    /** The entity's own `path` on disk ("" for remote and lookup objects). */
    function Path(): string {
      match this
      case ShelfObj(s) => s.path
      case BookObj(b) => b.path
      case ChapterObj(c) => c.path
      case PageObj(p) => p.path
    }

    function FullPath(): string {
      match this
      case ShelfObj(s) => s.FullPath()
      case BookObj(b) => b.FullPath()
      case ChapterObj(c) => c.FullPath()
      case PageObj(p) => p.FullPath()
    }
  }

  // ---------------------------------------------------------------------------
  // Which directory entries become children.

  /** Shelf._set_books: directories whose name does not start with ".". */
  predicate IsBookDir(e: Entry) {
    e.Dir? && !Hidden(e.name)
  }

  /** Book._set_pages: every directory is a chapter, hidden or not. */
  predicate IsChapterDir(e: Entry) {
    e.Dir?
  }

  /** Book._set_pages: a non-directory whose extension is exactly ".md". */
  predicate IsBookPageFile(e: Entry) {
    e.File? && Ext(e.name) == ".md"
  }

  /** Chapter._set_pages: any entry whose extension is exactly ".md" (it does not ask isdir). */
  predicate IsChapterPage(e: Entry) {
    Ext(e.name) == ".md"
  }

  /** The entries of `s` that `keep` accepts, in their original order. */
  function Filter<T>(s: seq<T>, keep: T -> bool): seq<T> {
    if s == [] then []
    else Filter(s[..|s| - 1], keep) + (if keep(s[|s| - 1]) then [s[|s| - 1]] else [])
  }

  /** Filter keeps exactly the accepted entries. */
  lemma {:induction false} FilterKeeps<T>(s: seq<T>, keep: T -> bool)
    ensures |Filter(s, keep)| <= |s|
    ensures forall i :: 0 <= i < |Filter(s, keep)| ==> Filter(s, keep)[i] in s && keep(Filter(s, keep)[i])
    ensures forall i :: 0 <= i < |s| && keep(s[i]) ==> s[i] in Filter(s, keep)
  {
    if s != [] {
      var init := s[..|s| - 1];
      FilterKeeps(init, keep);
      assert forall i :: 0 <= i < |init| ==> init[i] == s[i];
      assert forall x :: x in init ==> x in s;
    }
  }

  /** Helper: filtering one more entry. */
  lemma FilterSnoc<T>(s: seq<T>, i: nat, keep: T -> bool)
    requires i < |s|
    ensures Filter(s[..i + 1], keep) ==
      Filter(s[..i], keep) + (if keep(s[i]) then [s[i]] else [])
  {
    assert s[..i + 1][..i] == s[..i];
  }

  /** A chapter directory in which open() would only ever see files: a directory
      named "*.md" would be taken for a page and opening it would raise. */
  predicate ChapterListingOk(listing: seq<Entry>) {
    forall e <- listing :: IsChapterPage(e) ==> e.File?
  }

  predicate BookListingOk(listing: seq<Entry>) {
    forall e <- listing :: e.Dir? ==> ChapterListingOk(e.listing)
  }

  predicate ShelfListingOk(listing: seq<Entry>) {
    forall e <- listing :: IsBookDir(e) ==> BookListingOk(e.listing)
  }

  /** `p` is the page the collector builds for file `e` of directory `dir`. */
  predicate PageFrom(p: Page, e: Entry, dir: string, shelf: Shelf?, book: Book?, chapter: Chapter?) {
    && e.File?
    && p.name == e.name
    && p.path == Join(dir, e.name)
    && p.content == e.text
    && p.shelf == shelf && p.book == book && p.chapter == chapter
    && p.details == NoDetails
  }

  predicate PagesFrom(ps: seq<Page>, files: seq<Entry>, dir: string, shelf: Shelf?, book: Book?, chapter: Chapter?) {
    && |ps| == |files|
    && forall i :: 0 <= i < |ps| ==> PageFrom(ps[i], files[i], dir, shelf, book, chapter)
  }

  /** `c` is the chapter Book._set_pages builds for directory `e` of `dir`, pages loaded. */
  ghost predicate ChapterFrom(c: Chapter, e: Entry, dir: string, shelf: Shelf?, book: Book)
    reads c
  {
    && e.Dir?
    && c.name == e.name
    && c.path == Join(dir, e.name)
    && c.shelf == shelf && c.book == book
    && c.details == NoDetails
    && c.Loaded(e.listing)
  }

  ghost predicate ChaptersFrom(cs: seq<Chapter>, dirs: seq<Entry>, dir: string, shelf: Shelf?, book: Book)
    reads cs
  {
    && |cs| == |dirs|
    && forall i :: 0 <= i < |cs| ==> ChapterFrom(cs[i], dirs[i], dir, shelf, book)
  }

  /** `b` is the book Shelf._set_books builds for directory `e` of `dir`, children loaded. */
  ghost predicate BookFrom(b: Book, e: Entry, dir: string, shelf: Shelf)
    reads b, b.chapters
  {
    && e.Dir?
    && b.name == e.name
    && b.path == Join(dir, e.name)
    && b.shelf == shelf
    && b.details == NoDetails
    && b.Loaded(e.listing)
  }

  lemma PagesSnoc(ps: seq<Page>, files: seq<Entry>, p: Page, e: Entry, dir: string,
                  shelf: Shelf?, book: Book?, chapter: Chapter?)
    requires PagesFrom(ps, files, dir, shelf, book, chapter)
    requires PageFrom(p, e, dir, shelf, book, chapter)
    ensures PagesFrom(ps + [p], files + [e], dir, shelf, book, chapter)
  {
  }

  lemma ChaptersSnoc(cs: seq<Chapter>, dirs: seq<Entry>, c: Chapter, e: Entry, dir: string,
                     shelf: Shelf?, book: Book)
    requires ChaptersFrom(cs, dirs, dir, shelf, book)
    requires ChapterFrom(c, e, dir, shelf, book)
    ensures ChaptersFrom(cs + [c], dirs + [e], dir, shelf, book)
  {
    assert forall i :: 0 <= i < |cs| ==> (cs + [c])[i] == cs[i] && (dirs + [e])[i] == dirs[i];
  }

  /** One directory entry of Book._set_pages: a directory adds a chapter and leaves
      the pages as they were. */
  lemma ChapterDirStep(listing: seq<Entry>, n: nat, cs: seq<Chapter>, c: Chapter, dir: string,
                       shelf: Shelf?, book: Book)
    requires n < |listing| && listing[n].Dir?
    requires ChaptersFrom(cs, Filter(listing[..n], IsChapterDir), dir, shelf, book)
    requires ChapterFrom(c, listing[n], dir, shelf, book)
    ensures ChaptersFrom(cs + [c], Filter(listing[..n + 1], IsChapterDir), dir, shelf, book)
    ensures Filter(listing[..n + 1], IsBookPageFile) == Filter(listing[..n], IsBookPageFile)
  {
    FilterSnoc(listing, n, IsChapterDir);
    FilterSnoc(listing, n, IsBookPageFile);
    ChaptersSnoc(cs, Filter(listing[..n], IsChapterDir), c, listing[n], dir, shelf, book);
  }

  /** A ".md" file adds a page and leaves the chapters as they were. */
  lemma BookPageStep(listing: seq<Entry>, n: nat, ps: seq<Page>, p: Page, dir: string,
                     shelf: Shelf?, book: Book)
    requires n < |listing| && IsBookPageFile(listing[n])
    requires PagesFrom(ps, Filter(listing[..n], IsBookPageFile), dir, shelf, book, null)
    requires PageFrom(p, listing[n], dir, shelf, book, null)
    ensures PagesFrom(ps + [p], Filter(listing[..n + 1], IsBookPageFile), dir, shelf, book, null)
    ensures Filter(listing[..n + 1], IsChapterDir) == Filter(listing[..n], IsChapterDir)
  {
    FilterSnoc(listing, n, IsChapterDir);
    FilterSnoc(listing, n, IsBookPageFile);
    PagesSnoc(ps, Filter(listing[..n], IsBookPageFile), p, listing[n], dir, shelf, book, null);
  }

  /** Any other entry is skipped. */
  lemma BookSkipStep(listing: seq<Entry>, n: nat)
    requires n < |listing| && !listing[n].Dir? && !IsBookPageFile(listing[n])
    ensures Filter(listing[..n + 1], IsChapterDir) == Filter(listing[..n], IsChapterDir)
    ensures Filter(listing[..n + 1], IsBookPageFile) == Filter(listing[..n], IsBookPageFile)
  {
    FilterSnoc(listing, n, IsChapterDir);
    FilterSnoc(listing, n, IsBookPageFile);
  }

  /** One directory entry of Shelf._set_books: a visible directory adds a book. */
  lemma ShelfBookStep(listing: seq<Entry>, n: nat, bs: seq<Book>, b: Book, dir: string, shelf: Shelf)
    requires n < |listing| && IsBookDir(listing[n])
    requires |bs| == |Filter(listing[..n], IsBookDir)|
    requires forall i :: 0 <= i < |bs| ==> BookFrom(bs[i], Filter(listing[..n], IsBookDir)[i], dir, shelf)
    requires BookFrom(b, listing[n], dir, shelf)
    ensures |bs + [b]| == |Filter(listing[..n + 1], IsBookDir)|
    ensures forall i :: 0 <= i < |bs + [b]| ==>
      BookFrom((bs + [b])[i], Filter(listing[..n + 1], IsBookDir)[i], dir, shelf)
  {
    FilterSnoc(listing, n, IsBookDir);
    var dirs := Filter(listing[..n], IsBookDir);
    assert Filter(listing[..n + 1], IsBookDir) == dirs + [listing[n]];
    forall i | 0 <= i < |bs + [b]|
      ensures BookFrom((bs + [b])[i], (dirs + [listing[n]])[i], dir, shelf)
    {
      if i < |bs| {
        assert (bs + [b])[i] == bs[i] && (dirs + [listing[n]])[i] == dirs[i];
      }
    }
  }

  /** One entry of Chapter._set_pages: a ".md" file adds a page. */
  lemma ChapterPageStep(listing: seq<Entry>, n: nat, ps: seq<Page>, p: Page, dir: string,
                        book: Book?, chapter: Chapter)
    requires n < |listing| && IsChapterPage(listing[n])
    requires PagesFrom(ps, Filter(listing[..n], IsChapterPage), dir, null, book, chapter)
    requires PageFrom(p, listing[n], dir, null, book, chapter)
    ensures PagesFrom(ps + [p], Filter(listing[..n + 1], IsChapterPage), dir, null, book, chapter)
  {
    FilterSnoc(listing, n, IsChapterPage);
    PagesSnoc(ps, Filter(listing[..n], IsChapterPage), p, listing[n], dir, null, book, chapter);
  }

  // ---------------------------------------------------------------------------
  // The entities.


  class Shelf {
    const name: string
    const path: string
    const details: Details
    var books: seq<Book>

    /** Shelf(name, from_client, path, details); a shelf read from disk loads its books. */
    constructor (name: string, fromClient: bool, path: string, details: Details, listing: seq<Entry>)
      requires !fromClient ==> ShelfListingOk(listing)
      ensures this.name == name && this.path == path && this.details == details
      ensures fromClient ==> books == []
      ensures !fromClient ==>
        var dirs := Filter(listing, IsBookDir);
        |books| == |dirs| && forall i :: 0 <= i < |books| ==> BookFrom(books[i], dirs[i], path, this)
    {
      this.path := path;
      this.name := name;
      this.details := details;
      new;
      if fromClient {
        books := [];
      } else {
        books := SetBooks(listing);
      }
    }

    /** Shelf._set_books: one book per visible directory, each pointing back to this shelf. */
    method SetBooks(listing: seq<Entry>) returns (bs: seq<Book>)
      requires ShelfListingOk(listing)
      ensures var dirs := Filter(listing, IsBookDir);
        |bs| == |dirs| && forall i :: 0 <= i < |bs| ==> BookFrom(bs[i], dirs[i], path, this)
    {
      bs := [];
      for n := 0 to |listing|
        invariant var dirs := Filter(listing[..n], IsBookDir);
          |bs| == |dirs| && forall i :: 0 <= i < |bs| ==> BookFrom(bs[i], dirs[i], path, this)
      {
        var e := listing[n];
        if IsBookDir(e) {
          assert e in listing;
          var b := new Book(e.name, this, [], Join(path, e.name), NoDetails, false, e.listing);
          ShelfBookStep(listing, n, bs, b, path, this);
          bs := bs + [b];
        } else {
          FilterSnoc(listing, n, IsBookDir);
        }
      }
      assert listing[..|listing|] == listing;
    }

    /** A shelf's path is its name alone: its lineage joined by the separator. */
    function FullPath(): (r: string)
      ensures r == SepJoin(Lineage())
    {
      name
    }

    /** The names on the way from the root to this entity. */
    function Lineage(): seq<string> {
      [name]
    }
  }

  class Book {
    const name: string
    const path: string
    const shelf: Shelf?
    const details: Details
    var chapters: seq<Chapter>
    var pages: seq<Page>

    /** `chapters` and `pages` are what Book._set_pages builds from `listing`. */
    ghost predicate Loaded(listing: seq<Entry>)
      reads this, chapters
    {
      && ChaptersFrom(chapters, Filter(listing, IsChapterDir), path, shelf, this)
      && PagesFrom(pages, Filter(listing, IsBookPageFile), path, shelf, this, null)
    }

    /** Book(name, shelf, chapters, path, details, from_client). */
    constructor (name: string, shelf: Shelf?, chapters: seq<Chapter>, path: string, details: Details,
                 fromClient: bool, listing: seq<Entry>)
      requires !fromClient ==> BookListingOk(listing)
      ensures this.name == name && this.shelf == shelf && this.path == path && this.details == details
      ensures fromClient ==> this.chapters == chapters && pages == []
      ensures !fromClient ==> Loaded(listing)
    {
      this.path := path;
      this.name := name;
      this.shelf := shelf;
      this.details := details;
      new;
      this.chapters := chapters;
      if fromClient {
        pages := [];
      } else {
        SetPages(listing);
      }
    }

    /** Book._set_pages: directories become chapters, ".md" files become pages,
        and both lists replace the book's own. */
    method SetPages(listing: seq<Entry>)
      requires BookListingOk(listing)
      modifies this`pages, this`chapters
      ensures Loaded(listing)
    {
      var ps: seq<Page> := [];
      var cs: seq<Chapter> := [];
      for n := 0 to |listing|
        invariant ChaptersFrom(cs, Filter(listing[..n], IsChapterDir), path, shelf, this)
        invariant PagesFrom(ps, Filter(listing[..n], IsBookPageFile), path, shelf, this, null)
      {
        var e := listing[n];
        if e.Dir? {
          assert e in listing;
          var c := new Chapter(e.name, shelf, this, Join(path, e.name), NoDetails, false, e.listing);
          ChapterDirStep(listing, n, cs, c, path, shelf, this);
          cs := cs + [c];
        } else if IsBookPageFile(e) {
          var p := new Page(e.name, Join(path, e.name), e.text, shelf, this, null, NoDetails);
          BookPageStep(listing, n, ps, p, path, shelf, this);
          ps := ps + [p];
        } else {
          BookSkipStep(listing, n);
        }
      }
      assert listing[..|listing|] == listing;
      pages := ps;
      chapters := cs;
    }

    /** The shelf's path, then the book's name. */
    function FullPath(): (r: string)
      ensures EndsWith(r, name)
      ensures shelf == null ==> r == name
    {
      if shelf != null then Join(shelf.FullPath(), name) else name
    }

    function Lineage(): seq<string> {
      (if shelf != null then shelf.Lineage() else []) + [name]
    }
  }

  class Chapter {
    const name: string
    const path: string
    const shelf: Shelf?
    const book: Book?
    const details: Details
    var pages: seq<Page>

    /** `pages` is what Chapter._set_pages builds from `listing`. */
    ghost predicate Loaded(listing: seq<Entry>)
      reads this
    {
      PagesFrom(pages, Filter(listing, IsChapterPage), path, null, book, this)
    }

    /** Chapter(name, shelf, book, path, details, from_client). */
    constructor (name: string, shelf: Shelf?, book: Book?, path: string, details: Details,
                 fromClient: bool, listing: seq<Entry>)
      requires !fromClient ==> ChapterListingOk(listing)
      ensures this.name == name && this.shelf == shelf && this.book == book
      ensures this.path == path && this.details == details
      ensures fromClient ==> pages == []
      ensures !fromClient ==> Loaded(listing)
    {
      this.path := path;
      this.name := name;
      this.shelf := shelf;
      this.book := book;
      this.details := details;
      new;
      if fromClient {
        pages := [];
      } else {
        SetPages(listing);
      }
    }

    /** Chapter._set_pages: the ".md" entries become pages of this chapter and of its
        book; they get no shelf. */
    method SetPages(listing: seq<Entry>)
      requires ChapterListingOk(listing)
      modifies this
      ensures Loaded(listing)
    {
      var ps: seq<Page> := [];
      for n := 0 to |listing|
        invariant PagesFrom(ps, Filter(listing[..n], IsChapterPage), path, null, book, this)
      {
        var e := listing[n];
        if IsChapterPage(e) {
          assert e in listing;
          var pagePath := Join(path, e.name);
          assert |e.name| >= 3 && pagePath != [];
          var p := new Page(e.name, pagePath, e.text, null, book, this, NoDetails);
          ChapterPageStep(listing, n, ps, p, path, book, this);
          ps := ps + [p];
        } else {
          FilterSnoc(listing, n, IsChapterPage);
        }
      }
      assert listing[..|listing|] == listing;
      pages := ps;
    }

    /** Goes through the book only; the chapter's own `shelf` plays no part. */
    function FullPath(): (r: string)
      ensures EndsWith(r, name)
      ensures book == null ==> r == name
    {
      if book != null then Join(book.FullPath(), name) else name
    }

    function Lineage(): seq<string> {
      (if book != null then book.Lineage() else []) + [name]
    }
  }

  class Page {
    const name: string
    const path: string
    const content: string
    const shelf: Shelf?
    const book: Book?
    const chapter: Chapter?
    const details: Details

    /** Page(name, path, shelf, book, chapter, details); `fileText` is what reading
        `path` would return, and it is read only when `path` is non-empty. */
    constructor (name: string, path: string, fileText: string, shelf: Shelf?, book: Book?,
                 chapter: Chapter?, details: Details)
      ensures this.name == name && this.path == path && this.details == details
      ensures this.shelf == shelf && this.book == book && this.chapter == chapter
      ensures content == if path != [] then fileText else []
    {
      this.path := path;
      this.name := name;
      this.content := if path != [] then fileText else [];
      this.shelf := shelf;
      this.book := book;
      this.chapter := chapter;
      this.details := details;
    }

    /** The chapter path wins over the book path; the name loses its extension. */
    function FullPath(): (r: string)
      ensures EndsWith(r, Stem(name))
      ensures chapter == null && book == null ==> r == Stem(name)
    {
      var stem := Stem(name);
      if chapter != null then Join(chapter.FullPath(), stem)
      else if book != null then Join(book.FullPath(), stem)
      else stem
    }

    function Lineage(): seq<string> {
      (if chapter != null then chapter.Lineage() else if book != null then book.Lineage() else [])
      + [Stem(name)]
    }
  }

  // ---------------------------------------------------------------------------
  // Full path strings are the lineage joined by the separator.

  lemma ShelfPath(s: Shelf)
    requires PlainNames(s.Lineage())
    ensures s.FullPath() == SepJoin(s.Lineage())
    ensures Split(s.FullPath()) == s.Lineage()
  {
    SplitSepJoin(s.Lineage());
  }

  lemma {:induction false} BookPath(b: Book)
    requires PlainNames(b.Lineage())
    ensures b.FullPath() == SepJoin(b.Lineage())
    ensures Split(b.FullPath()) == b.Lineage()
  {
    if b.shelf != null {
      var up := b.shelf.Lineage();
      assert PlainNames(up) by { assert forall i :: 0 <= i < |up| ==> up[i] == b.Lineage()[i]; }
      assert b.name == b.Lineage()[|up|];
      JoinSepJoin(up, b.name);
    }
    SplitSepJoin(b.Lineage());
  }

  lemma {:induction false} ChapterPath(c: Chapter)
    requires PlainNames(c.Lineage())
    ensures c.FullPath() == SepJoin(c.Lineage())
    ensures Split(c.FullPath()) == c.Lineage()
  {
    if c.book != null {
      var up := c.book.Lineage();
      assert PlainNames(up) by { assert forall i :: 0 <= i < |up| ==> up[i] == c.Lineage()[i]; }
      assert c.name == c.Lineage()[|up|];
      BookPath(c.book);
      JoinSepJoin(up, c.name);
    }
    SplitSepJoin(c.Lineage());
  }

  lemma {:induction false} PagePath(p: Page)
    requires PlainNames(p.Lineage())
    ensures p.FullPath() == SepJoin(p.Lineage())
    ensures Split(p.FullPath()) == p.Lineage()
  {
    var stem := Stem(p.name);
    if p.chapter != null {
      var up := p.chapter.Lineage();
      assert PlainNames(up) by { assert forall i :: 0 <= i < |up| ==> up[i] == p.Lineage()[i]; }
      assert stem == p.Lineage()[|up|];
      ChapterPath(p.chapter);
      JoinSepJoin(up, stem);
    } else if p.book != null {
      var up := p.book.Lineage();
      assert PlainNames(up) by { assert forall i :: 0 <= i < |up| ==> up[i] == p.Lineage()[i]; }
      assert stem == p.Lineage()[|up|];
      BookPath(p.book);
      JoinSepJoin(up, stem);
    }
    SplitSepJoin(p.Lineage());
  }
}
