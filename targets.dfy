/** Delete targets. `delete` receives a path string, splits it on the separator and
    rebuilds a lookup-only entity from the parts (_build_object_for_delete); purge_remote
    produces that path string with get_full_path_str. */
module DeleteTargets {
  import opened Base
  import opened Paths
  import opened Artifacts
  import opened Identity

  /** The names of the lookup object that _build_object_for_delete builds. */
  datatype Target =
    | ShelfTarget(shelf: string)
    | BookTarget(shelf: string, book: string)
    | ChapterTarget(shelf: string, book: string, chapter: string)
    | BookPageTarget(shelf: string, book: string, page: string)
    | ChapterPageTarget(shelf: string, book: string, chapter: string, page: string)
  {
    /** The parts the target was built from, in path order. */
    function Names(): seq<string> {
      match this
      case ShelfTarget(s) => [s]
      case BookTarget(s, b) => [s, b]
      case ChapterTarget(s, b, c) => [s, b, c]
      case BookPageTarget(s, b, p) => [s, b, p]
      case ChapterPageTarget(s, b, c, p) => [s, b, c, p]
    }

    function Kind(): ItemKind {
      match this
      case ShelfTarget(_) => ShelfItem
      case BookTarget(_, _) => BookItem
      case ChapterTarget(_, _, _) => ChapterItem
      case BookPageTarget(_, _, _) => PageItem
      case ChapterPageTarget(_, _, _, _) => PageItem
    }
  }

  /** How many parts a kind needs before an IndexError. */
  function MinParts(kind: ItemKind): nat {
    match kind
    case ShelfItem => 1
    case BookItem => 2
    case ChapterItem => 3
    case PageItem => 3
  }

  /** _build_object_for_delete: SHELF uses parts[0]; BOOK parts[0..2] (shelf, book);
      CHAPTER parts[0..3]; a PAGE with exactly four parts is a chapter page, any other
      PAGE is a book page named by parts[2]. Too few parts raise IndexError. */
  function TargetOf(kind: ItemKind, parts: seq<string>): (r: Result<Target>)
    ensures r.Err? <==> |parts| < MinParts(kind)
    ensures r.Err? ==> r.fault == IndexError
    ensures r.Ok? ==> r.value.Kind() == kind
    ensures r.Ok? ==> |r.value.Names()| <= |parts| && r.value.Names() == parts[..|r.value.Names()|]
    ensures r.Ok? && kind == PageItem ==> (r.value.ChapterPageTarget? <==> |parts| == 4)
  {
    match kind
    case ShelfItem =>
      if |parts| < 1 then Err(IndexError) else Ok(ShelfTarget(parts[0]))
    case BookItem =>
      if |parts| < 2 then Err(IndexError) else Ok(BookTarget(parts[0], parts[1]))
    case ChapterItem =>
      if |parts| < 3 then Err(IndexError) else Ok(ChapterTarget(parts[0], parts[1], parts[2]))
    case PageItem =>
      if |parts| == 4 then Ok(ChapterPageTarget(parts[0], parts[1], parts[2], parts[3]))
      else if |parts| < 3 then Err(IndexError)
      else Ok(BookPageTarget(parts[0], parts[1], parts[2]))
  }

  /** The string _retrieve_from_client_map hashes for the rebuilt object: pages are
      stripped of their extension; a chapter is keyed through its book, without the shelf. */
  function TargetName(t: Target): (r: string)
    ensures var last := t.Names()[|t.Names()| - 1];
      var own := if t.Kind() == PageItem then Stem(last) else last;
      |own| <= |r| && r[..|own|] == own
  {
    match t
    case ShelfTarget(s) => s
    case BookTarget(s, b) => b + s
    case ChapterTarget(_, b, c) => c + b
    case BookPageTarget(_, b, p) => Stem(p) + b
    case ChapterPageTarget(_, b, c, p) => Stem(p) + b + c
  }

  /** `obj` is the lookup object _build_object_for_delete builds for `t`: every level
      is created with from_client left at its default, a chapter gets a book but no
      shelf, and a page gets book (and chapter) but no shelf. */
  predicate Realises(obj: Artifact, t: Target) {
    match t
    case ShelfTarget(s) =>
      obj.ShelfObj? && obj.shelf.name == s
    case BookTarget(s, b) =>
      obj.BookObj? && BookOn(obj.book, s, b)
    case ChapterTarget(s, b, c) =>
      && obj.ChapterObj? && obj.chapter.name == c && obj.chapter.shelf == null
      && obj.chapter.book != null && BookOn(obj.chapter.book, s, b)
    case BookPageTarget(s, b, p) =>
      && obj.PageObj? && obj.page.name == p && obj.page.shelf == null && obj.page.chapter == null
      && obj.page.book != null && BookOn(obj.page.book, s, b)
    case ChapterPageTarget(s, b, c, p) =>
      && obj.PageObj? && obj.page.name == p && obj.page.shelf == null
      && obj.page.book != null && BookOn(obj.page.book, s, b)
      && obj.page.chapter != null && obj.page.chapter.name == c && obj.page.chapter.book == obj.page.book
      && obj.page.chapter.shelf == null
  }

  predicate BookOn(book: Book, s: string, b: string) {
    book.name == b && book.shelf != null && book.shelf.name == s
  }

  /** The rebuilt object is looked up under the target's name. */
  lemma RealisedLookup(obj: Artifact, t: Target)
    requires Realises(obj, t)
    ensures obj.Kind() == t.Kind()
    ensures LookupName(obj) == Ok(TargetName(t))
  {
  }

  /** The path `delete` removes locally: the vault root joined with the parts, plus
      ".md" for a page. Local.Bookstack.Delete removes this path. */
  function LocalDeletePath(root: string, kind: ItemKind, parts: seq<string>): string {
    JoinAll(root, parts) + (if kind == PageItem then ".md" else "")
  }

  // ---------------------------------------------------------------------------
  // Round trip: get_full_path_str, split, rebuild, key.

  lemma {:induction false} ShelfRoundTrip(s: Shelf)
    requires PlainNames(s.Lineage())
    ensures TargetOf(ShelfItem, Split(s.FullPath())) == Ok(ShelfTarget(s.name))
    ensures TargetName(ShelfTarget(s.name)) == ShelfMapName(s).value
  {
    ShelfPath(s);
  }

  lemma {:induction false} BookRoundTrip(b: Book)
    requires b.shelf != null && PlainNames(b.Lineage())
    ensures TargetOf(BookItem, Split(b.FullPath())) == Ok(BookTarget(b.shelf.name, b.name))
    ensures TargetName(BookTarget(b.shelf.name, b.name)) == BookMapName(b).value
  {
    BookPath(b);
  }

  lemma {:induction false} ChapterRoundTrip(c: Chapter)
    requires c.book != null && c.book.shelf != null && PlainNames(c.Lineage())
    ensures TargetOf(ChapterItem, Split(c.FullPath())) ==
      Ok(ChapterTarget(c.book.shelf.name, c.book.name, c.name))
    ensures TargetName(ChapterTarget(c.book.shelf.name, c.book.name, c.name)) == ChapterMapName(c).value
  {
    ChapterPath(c);
    ChapterLineage(c);
    ChapterParts(c.book.shelf.name, c.book.name, c.name);
  }

  lemma ChapterParts(s: string, b: string, c: string)
    ensures TargetOf(ChapterItem, [s, b, c]) == Ok(ChapterTarget(s, b, c))
  {
  }

  lemma ChapterLineage(c: Chapter)
    requires c.book != null && c.book.shelf != null
    ensures c.Lineage() == [c.book.shelf.name, c.book.name, c.name]
  {
    assert c.book.Lineage() == [c.book.shelf.name, c.book.name];
  }

  /** The page belongs to a shelved book, directly or through a chapter of that same book. */
  predicate ShelvedPage(p: Page) {
    if p.chapter != null then
      p.chapter.book != null && p.book == p.chapter.book && p.book.shelf != null
    else
      p.book != null && p.book.shelf != null
  }

  /** The target a shelved page's path should be rebuilt into. */
  function PageTargetOf(p: Page): Target
    requires ShelvedPage(p)
  {
    if p.chapter != null then ChapterPageTarget(p.book.shelf.name, p.book.name, p.chapter.name, Stem(p.name))
    else BookPageTarget(p.book.shelf.name, p.book.name, Stem(p.name))
  }

  /** The path of a shelved page is rebuilt into the page's own target. */
  lemma {:induction false} PageTarget(p: Page)
    requires ShelvedPage(p) && PlainNames(p.Lineage())
    ensures TargetOf(PageItem, Split(p.FullPath())) == Ok(PageTargetOf(p))
  {
    PagePath(p);
    LineageTarget(p);
  }

  lemma LineageTarget(p: Page)
    requires ShelvedPage(p)
    ensures TargetOf(PageItem, p.Lineage()) == Ok(PageTargetOf(p))
  {
    var l := p.Lineage();
    if p.chapter != null {
      assert p.chapter.Lineage() == p.book.Lineage() + [p.chapter.name];
      assert |l| == 4 && l[0] == p.book.shelf.name && l[1] == p.book.name;
      assert l[2] == p.chapter.name && l[3] == Stem(p.name);
    } else {
      assert |l| == 3 && l[0] == p.book.shelf.name && l[1] == p.book.name && l[2] == Stem(p.name);
    }
  }

  /** What purge_remote relies on: a page whose name has no extension is rebuilt into
      a lookup object with the page's own map key. */
  lemma {:induction false} PageRoundTrip(p: Page)
    requires ShelvedPage(p) && PlainNames(p.Lineage()) && Ext(p.name) == []
    ensures TargetOf(PageItem, Split(p.FullPath())) == Ok(PageTargetOf(p))
    ensures TargetName(PageTargetOf(p)) == PageMapName(p).value
  {
    PageTarget(p);
    PageTargetName(p);
  }

  /** Without an extension, the target's name of a shelved page is its map string. */
  lemma PageTargetName(p: Page)
    requires ShelvedPage(p) && Ext(p.name) == []
    ensures TargetName(PageTargetOf(p)) == PageMapName(p).value
  {
    assert Stem(p.name) == p.name by {
      assert p.name == Stem(p.name) + Ext(p.name);
    }
  }

  /** A local page ("notes.md") is rebuilt into a lookup object with the same lookup
      key as the page itself, as long as stripping the extension twice changes nothing. */
  lemma {:induction false} LocalPageRoundTrip(p: Page)
    requires ShelvedPage(p) && PlainNames(p.Lineage()) && Stem(Stem(p.name)) == Stem(p.name)
    ensures TargetOf(PageItem, Split(p.FullPath())) == Ok(PageTargetOf(p))
    ensures Ok(TargetName(PageTargetOf(p))) == LookupName(PageObj(p))
  {
    PageTarget(p);
    PageTargetLookup(p);
  }

  lemma PageTargetLookup(p: Page)
    requires ShelvedPage(p) && Stem(Stem(p.name)) == Stem(p.name)
    ensures Ok(TargetName(PageTargetOf(p))) == LookupName(PageObj(p))
  {
  }

  /** The round trip breaks for a remote page whose name contains a dot: "v1.2" is
      split as if ".2" were an extension, so the rebuilt lookup misses the page. */
  lemma DottedPageMissesItself(p: Page)
    requires p.name == "v1.2" && p.chapter == null && p.book != null && p.book.shelf != null
    requires p.book.name == "b" && p.book.shelf.name == "s"
    ensures TargetOf(PageItem, Split(p.FullPath())).Ok?
    ensures TargetName(TargetOf(PageItem, Split(p.FullPath())).value) != PageMapName(p).value
  {
    DottedPageTarget(p);
    DottedTargetName();
    assert |PageMapName(p).value| == 5;
  }

  lemma DottedTargetName()
    ensures TargetName(BookPageTarget("s", "b", "v1")) == "v1b"
  {
    NoDotNoExt("v1");
  }

  /** What a delete rebuilds from the full path of the page "v1.2" of book "b" on shelf "s". */
  lemma DottedPageTarget(p: Page)
    requires p.name == "v1.2" && p.chapter == null && p.book != null && p.book.shelf != null
    requires p.book.name == "b" && p.book.shelf.name == "s"
    ensures TargetOf(PageItem, Split(p.FullPath())) == Ok(BookPageTarget("s", "b", "v1"))
  {
    DottedLineage(p);
    PagePath(p);
    BookPageParts("s", "b", "v1");
  }

  lemma DottedLineage(p: Page)
    requires p.name == "v1.2" && p.chapter == null && p.book != null && p.book.shelf != null
    requires p.book.name == "b" && p.book.shelf.name == "s"
    ensures p.Lineage() == ["s", "b", "v1"] && PlainNames(p.Lineage())
  {
    DottedStem();
    assert p.book.Lineage() == ["s", "b"];
  }

  lemma BookPageParts(s: string, b: string, p: string)
    ensures TargetOf(PageItem, [s, b, p]) == Ok(BookPageTarget(s, b, p))
  {
  }

  /** splitext("v1.2") takes ".2" for an extension. */
  lemma DottedStem()
    ensures Stem("v1.2") == "v1"
  {
    var name := "v1.2";
    assert RFind(name, ExtSep) == 2;
    assert RFind(name, Sep) == -1;
    assert name[0] != ExtSep;
  }

  /** A page of a book without a shelf has a two-part path, and rebuilding it raises IndexError. */
  lemma {:induction false} ShelflessPageCannotBeRebuilt(p: Page)
    requires p.chapter == null && p.book != null && p.book.shelf == null && PlainNames(p.Lineage())
    ensures TargetOf(PageItem, Split(p.FullPath())) == Err(IndexError)
  {
    PagePath(p);
  }
}
