/** BookstackClient: the remote instance as lists of entities and four lookup maps.
    What the HTTP collectors return is a `Snapshot`; con_hash is the client's `conHash`. */
module Remote {
  import opened Base
  import opened Paths
  import opened Artifacts
  import opened Identity

  /** What the remote collectors return: shelves, books, pages and chapters. */
  datatype Snapshot = Snapshot(shelves: seq<Shelf>, books: seq<Book>, pages: seq<Page>, chapters: seq<Chapter>)

  class BookstackClient {
    const conHash: string -> Digest
    var shelves: seq<Shelf>
    var books: seq<Book>
    var pages: seq<Page>
    var chapters: seq<Chapter>
    var shelfMap: map<Digest, Shelf>
    var bookMap: map<Digest, Book>
    var pageMap: map<Digest, Page>
    var chapterMap: map<Digest, Chapter>

    /** Every map is the list-order fill of its list (__set_maps after __set_artifacts). */
    ghost predicate Valid()
      reads this
    {
      && shelfMap == KeyedMap(shelves, ShelfMapName, conHash)
      && bookMap == KeyedMap(books, BookMapName, conHash)
      && pageMap == KeyedMap(pages, PageMapName, conHash)
      && chapterMap == KeyedMap(chapters, ChapterMapName, conHash)
    }

    /** BookstackClient(verbose): collect the artifacts, then build the maps. */
    constructor (conHash: string -> Digest, snapshot: Snapshot)
      ensures this.conHash == conHash
      ensures shelves == snapshot.shelves && books == snapshot.books
      ensures pages == snapshot.pages && chapters == snapshot.chapters
      ensures Valid()
    {
      this.conHash := conHash;
      new;
      SetArtifacts(snapshot);
      SetMaps();
    }

    /** _refresh: collect again and rebuild every map. */
    method Refresh(snapshot: Snapshot)
      modifies this
      ensures shelves == snapshot.shelves && books == snapshot.books
      ensures pages == snapshot.pages && chapters == snapshot.chapters
      ensures Valid()
    {
      SetArtifacts(snapshot);
      SetMaps();
    }

    /** __set_artifacts: what the four collectors return. */
    method SetArtifacts(snapshot: Snapshot)
      modifies this`shelves, this`books, this`pages, this`chapters
      ensures shelves == snapshot.shelves && books == snapshot.books
      ensures pages == snapshot.pages && chapters == snapshot.chapters
      ensures shelfMap == old(shelfMap) && bookMap == old(bookMap)
      ensures pageMap == old(pageMap) && chapterMap == old(chapterMap)
    {
      shelves := snapshot.shelves;
      books := snapshot.books;
      pages := snapshot.pages;
      chapters := snapshot.chapters;
    }

    /** __set_maps: every map rebuilt from its list; the lists stay as they are. */
    method SetMaps()
      modifies this`shelfMap, this`bookMap, this`pageMap, this`chapterMap
      ensures shelves == old(shelves) && books == old(books)
      ensures pages == old(pages) && chapters == old(chapters)
      ensures Valid()
    {
      var sm := BuildShelfMap();
      var bm := BuildBookMap();
      var pm := BuildPageMap();
      var cm := BuildChapterMap();
      shelfMap, bookMap, pageMap, chapterMap := sm, bm, pm, cm;
    }

    /** _build_shelf_map: a comprehension over the shelves, keyed by name. */
    function BuildShelfMap(): (m: map<Digest, Shelf>)
      reads this
      ensures m == KeyedMap(shelves, ShelfMapName, conHash)
    {
      ShelfComprehension(shelves, conHash);
      ShelfDict(shelves, conHash)
    }

    /** _build_book_map: book name + shelf name, or the bare name. */
    method BuildBookMap() returns (m: map<Digest, Book>)
      ensures m == KeyedMap(books, BookMapName, conHash)
    {
      m := map[];
      for i := 0 to |books|
        invariant m == KeyedMap(books[..i], BookMapName, conHash)
      {
        var book := books[i];
        assert books[..i + 1][..i] == books[..i];
        if book.shelf != null {
          m := m[conHash(book.name + book.shelf.name) := book];
        } else {
          m := m[conHash(book.name) := book];
        }
      }
      assert books[..|books|] == books;
    }

    /** _build_page_map: page + book + chapter, page + book, or the bare page name. */
    method BuildPageMap() returns (m: map<Digest, Page>)
      ensures m == KeyedMap(pages, PageMapName, conHash)
    {
      m := map[];
      for i := 0 to |pages|
        invariant m == KeyedMap(pages[..i], PageMapName, conHash)
      {
        var page := pages[i];
        assert pages[..i + 1][..i] == pages[..i];
        if page.chapter != null && page.book != null {
          m := m[conHash(page.name + page.book.name + page.chapter.name) := page];
        } else if page.book != null {
          m := m[conHash(page.name + page.book.name) := page];
        } else {
          m := m[conHash(page.name) := page];
        }
      }
      assert pages[..|pages|] == pages;
    }

    /** _build_chapter_map: chapter + book name; chapters without a book are skipped. */
    method BuildChapterMap() returns (m: map<Digest, Chapter>)
      ensures m == KeyedMap(chapters, ChapterMapName, conHash)
    {
      m := map[];
      for i := 0 to |chapters|
        invariant m == KeyedMap(chapters[..i], ChapterMapName, conHash)
      {
        var chapter := chapters[i];
        assert chapters[..i + 1][..i] == chapters[..i];
        if chapter.book != null {
          m := m[conHash(chapter.name + chapter.book.name) := chapter];
        }
      }
      assert chapters[..|chapters|] == chapters;
    }

    /** The map of `kind` indexed by the digest of `name`; an absent key raises KeyError. */
    function Find(kind: ItemKind, name: string): (r: Result<Artifact>)
      reads this
      ensures r.Ok? ==> r.value.Kind() == kind
      ensures r.Err? ==> r.fault == KeyError
    {
      var k := conHash(name);
      match kind
      case ShelfItem => if k in shelfMap then Ok(ShelfObj(shelfMap[k])) else Err(KeyError)
      case BookItem => if k in bookMap then Ok(BookObj(bookMap[k])) else Err(KeyError)
      case ChapterItem => if k in chapterMap then Ok(ChapterObj(chapterMap[k])) else Err(KeyError)
      case PageItem => if k in pageMap then Ok(PageObj(pageMap[k])) else Err(KeyError)
    }

    /** _retrieve_from_client_map: compute the lookup name of `obj` and find it in the
        map of the object's kind. */
    function Retrieve(obj: Artifact): (r: Result<Artifact>)
      reads this
      ensures r.Ok? ==> r.value.Kind() == obj.Kind()
      ensures r.Err? ==> r.fault == KeyError || r.fault == AttributeError
      ensures r == Err(AttributeError) <==> LookupName(obj).Err?
    {
      match LookupName(obj)
      case Err(f) => Err(f)
      case Ok(name) => Find(obj.Kind(), name)
    }
  }

  /** `{con_hash(shelf.name): shelf for shelf in shelves}`: one entry per digest, holding
      the last shelf with that digest. */
  function ShelfDict(shelves: seq<Shelf>, h: string -> Digest): map<Digest, Shelf> {
    map s | s in shelves :: h(s.name) := shelves[LastSlot(shelves, ShelfMapName, h, h(s.name))]
  }

  lemma ShelfComprehension(shelves: seq<Shelf>, h: string -> Digest)
    ensures ShelfDict(shelves, h) == KeyedMap(shelves, ShelfMapName, h)
  {
    var d := ShelfDict(shelves, h);
    var m := KeyedMap(shelves, ShelfMapName, h);
    forall k | k in d
      ensures k in m && d[k] == m[k]
    {
      var s :| s in shelves && h(s.name) == k;
      var i :| 0 <= i < |shelves| && shelves[i] == s;
      assert Slot(shelves[i], ShelfMapName, h) == Some(k);
      KeyedMapIsLast(shelves, ShelfMapName, h, k);
    }
    forall k | k in m
      ensures k in d
    {
      KeyedMapIsLast(shelves, ShelfMapName, h, k);
      var i := LastSlot(shelves, ShelfMapName, h, k);
      assert shelves[i] in shelves;
    }
  }

  /** Finding returns the LAST remote entity of the kind whose map key is the digest of
      `name`, and KeyError exactly when there is none. */
  lemma FindIsLastMatch(c: BookstackClient, kind: ItemKind, name: string)
    requires c.Valid()
    ensures kind == ShelfItem ==>
      var i := LastSlot(c.shelves, ShelfMapName, c.conHash, c.conHash(name));
      c.Find(kind, name) == if i >= 0 then Ok(ShelfObj(c.shelves[i])) else Err(KeyError)
    ensures kind == BookItem ==>
      var i := LastSlot(c.books, BookMapName, c.conHash, c.conHash(name));
      c.Find(kind, name) == if i >= 0 then Ok(BookObj(c.books[i])) else Err(KeyError)
    ensures kind == ChapterItem ==>
      var i := LastSlot(c.chapters, ChapterMapName, c.conHash, c.conHash(name));
      c.Find(kind, name) == if i >= 0 then Ok(ChapterObj(c.chapters[i])) else Err(KeyError)
    ensures kind == PageItem ==>
      var i := LastSlot(c.pages, PageMapName, c.conHash, c.conHash(name));
      c.Find(kind, name) == if i >= 0 then Ok(PageObj(c.pages[i])) else Err(KeyError)
  {
    var k := c.conHash(name);
    match kind
    case ShelfItem => KeyedMapIsLast(c.shelves, ShelfMapName, c.conHash, k);
    case BookItem => KeyedMapIsLast(c.books, BookMapName, c.conHash, k);
    case ChapterItem => KeyedMapIsLast(c.chapters, ChapterMapName, c.conHash, k);
    case PageItem => KeyedMapIsLast(c.pages, PageMapName, c.conHash, k);
  }

  /** A local page finds its remote counterpart: same stem, same book and chapter
      names, and no later remote page stored under the same digest. */
  lemma RetrieveFindsCounterpart(c: BookstackClient, local: Page, i: nat)
    requires c.Valid() && i < |c.pages|
    requires Stem(local.name) == c.pages[i].name
    requires (local.book == null) == (c.pages[i].book == null)
    requires (local.chapter == null) == (c.pages[i].chapter == null)
    requires local.book != null ==> local.book.name == c.pages[i].book.name
    requires local.chapter != null && local.book != null ==> local.chapter.name == c.pages[i].chapter.name
    requires forall j :: i < j < |c.pages| ==>
      Slot(c.pages[j], PageMapName, c.conHash) != Slot(c.pages[i], PageMapName, c.conHash)
    ensures c.Retrieve(PageObj(local)) == Ok(PageObj(c.pages[i]))
  {
    LocalPageFindsRemote(local, c.pages[i]);
    KeyedMapLastWins(c.pages, PageMapName, c.conHash, i);
  }

  /** A successful find returns an entity the client holds. */
  lemma FindReturnsHeld(c: BookstackClient, kind: ItemKind, name: string)
    requires c.Valid() && c.Find(kind, name).Ok?
    ensures match c.Find(kind, name).value
      case ShelfObj(s) => s in c.shelves
      case BookObj(b) => b in c.books
      case ChapterObj(ch) => ch in c.chapters && ch.book != null
      case PageObj(p) => p in c.pages
  {
    var k := c.conHash(name);
    match kind
    case ShelfItem => KeyedMapValues(c.shelves, ShelfMapName, c.conHash, k);
    case BookItem => KeyedMapValues(c.books, BookMapName, c.conHash, k);
    case ChapterItem => KeyedMapValues(c.chapters, ChapterMapName, c.conHash, k);
    case PageItem => KeyedMapValues(c.pages, PageMapName, c.conHash, k);
  }
}
