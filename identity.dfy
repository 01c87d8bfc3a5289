/** Identity keys. Local and remote entities share no id; an entity is found on the
    other side by hashing the concatenation of its own name with its ancestors' names.
    The hash (con_hash) is any deterministic function `h: string -> Digest`. */
module Identity {
  import opened Base
  import opened Paths
  import opened Artifacts

  type Digest = string

  // ---------------------------------------------------------------------------
  // The strings the map builders hash (name first, then the ancestors).

  /** _build_shelf_map: the shelf name. */
  function ShelfMapName(s: Shelf): (r: Option<string>)
    ensures r.Some? && r.value == s.name
  {
    Some(s.name)
  }

  /** _build_book_map: name + shelf name, or the bare name without a shelf. */
  function BookMapName(b: Book): (r: Option<string>)
    ensures r.Some? && |b.name| <= |r.value| && r.value[..|b.name|] == b.name
    ensures r.value[|b.name|..] == if b.shelf != null then b.shelf.name else []
  {
    if b.shelf != null then Some(b.name + b.shelf.name) else Some(b.name)
  }

  /** _build_page_map: name + book + chapter, else name + book, else the bare name. */
  function PageMapName(p: Page): (r: Option<string>)
    ensures r.Some? && |p.name| <= |r.value| && r.value[..|p.name|] == p.name
    ensures p.book == null ==> r.value == p.name
    ensures p.book != null ==>
      |p.name| + |p.book.name| <= |r.value| && r.value[|p.name|..|p.name| + |p.book.name|] == p.book.name
    ensures p.chapter != null && p.book != null ==> r.value == p.name + p.book.name + p.chapter.name
    ensures p.chapter == null && p.book != null ==> r.value == p.name + p.book.name
  {
    if p.chapter != null && p.book != null then Some(p.name + p.book.name + p.chapter.name)
    else if p.book != null then Some(p.name + p.book.name)
    else Some(p.name)
  }

  /** _build_chapter_map: name + book name; a chapter without a book gets no entry. */
  function ChapterMapName(c: Chapter): (r: Option<string>)
    ensures r.Some? <==> c.book != null
    ensures r.Some? ==> |c.name| <= |r.value| && r.value[..|c.name|] == c.name && r.value[|c.name|..] == c.book.name
  {
    if c.book != null then Some(c.name + c.book.name) else None
  }

  /** The digest an entity is stored under, if any. */
  function Slot<T>(x: T, nameOf: T -> Option<string>, h: string -> Digest): Option<Digest> {
    match nameOf(x)
    case None => None
    case Some(n) => Some(h(n))
  }

  /** A dict filled in list order: `m[h(name)] = x` for every `x` that has a name,
      so on a collision the later entity replaces the earlier one. */
  function KeyedMap<T>(xs: seq<T>, nameOf: T -> Option<string>, h: string -> Digest): (m: map<Digest, T>)
    ensures |m| <= |xs|
  {
    if xs == [] then map[]
    else
      var init := xs[..|xs| - 1];
      var m := KeyedMap(init, nameOf, h);
      var x := xs[|xs| - 1];
      match nameOf(x)
      case None => m
      case Some(n) => m[h(n) := x]
  }

  /** The map holds a digest exactly when some entity of the list is stored under it. */
  lemma {:induction false} KeyedMapDomain<T>(xs: seq<T>, nameOf: T -> Option<string>, h: string -> Digest, k: Digest)
    ensures k in KeyedMap(xs, nameOf, h) <==>
      exists i :: 0 <= i < |xs| && Slot(xs[i], nameOf, h) == Some(k)
  {
    if xs != [] {
      var init := xs[..|xs| - 1];
      KeyedMapDomain(init, nameOf, h, k);
      if exists i :: 0 <= i < |xs| && Slot(xs[i], nameOf, h) == Some(k) {
        var i :| 0 <= i < |xs| && Slot(xs[i], nameOf, h) == Some(k);
        if i < |init| {
          assert init[i] == xs[i];
        }
      }
      if k in KeyedMap(init, nameOf, h) {
        var i :| 0 <= i < |init| && Slot(init[i], nameOf, h) == Some(k);
        assert init[i] == xs[i];
      } else if k in KeyedMap(xs, nameOf, h) {
        assert Slot(xs[|xs| - 1], nameOf, h) == Some(k);
      }
    }
  }

  /** Last one wins: the entity stored under `k` is the last one of the list with that digest. */
  lemma {:induction false} KeyedMapLastWins<T>(xs: seq<T>, nameOf: T -> Option<string>, h: string -> Digest, i: nat)
    requires i < |xs| && Slot(xs[i], nameOf, h).Some?
    requires forall j :: i < j < |xs| ==> Slot(xs[j], nameOf, h) != Slot(xs[i], nameOf, h)
    ensures Slot(xs[i], nameOf, h).value in KeyedMap(xs, nameOf, h)
    ensures KeyedMap(xs, nameOf, h)[Slot(xs[i], nameOf, h).value] == xs[i]
  {
    if i < |xs| - 1 {
      var init := xs[..|xs| - 1];
      assert init[i] == xs[i];
      KeyedMapLastWins(init, nameOf, h, i);
    }
  }

  /** Every stored entity sits under its own digest. */
  lemma {:induction false} KeyedMapValues<T>(xs: seq<T>, nameOf: T -> Option<string>, h: string -> Digest, k: Digest)
    requires k in KeyedMap(xs, nameOf, h)
    ensures KeyedMap(xs, nameOf, h)[k] in xs
    ensures Slot(KeyedMap(xs, nameOf, h)[k], nameOf, h) == Some(k)
  {
    var init := xs[..|xs| - 1];
    var x := xs[|xs| - 1];
    if Slot(x, nameOf, h) != Some(k) {
      KeyedMapValues(init, nameOf, h, k);
      assert KeyedMap(init, nameOf, h)[k] in init;
    }
  }

  /** The index of the last entity stored under `k`, or -1: an independent description
      of the dict that a list-order fill produces. */
  function LastSlot<T>(xs: seq<T>, nameOf: T -> Option<string>, h: string -> Digest, k: Digest): (i: int)
    ensures -1 <= i < |xs|
    ensures 0 <= i ==> Slot(xs[i], nameOf, h) == Some(k)
    ensures forall j :: i < j < |xs| ==> Slot(xs[j], nameOf, h) != Some(k)
  {
    if xs == [] then -1
    else if Slot(xs[|xs| - 1], nameOf, h) == Some(k) then |xs| - 1
    else LastSlot(xs[..|xs| - 1], nameOf, h, k)
  }

  /** The filled dict is exactly "the last entity stored under each digest". */
  lemma {:induction false} KeyedMapIsLast<T>(xs: seq<T>, nameOf: T -> Option<string>, h: string -> Digest, k: Digest)
    ensures k in KeyedMap(xs, nameOf, h) <==> LastSlot(xs, nameOf, h, k) >= 0
    ensures k in KeyedMap(xs, nameOf, h) ==>
      KeyedMap(xs, nameOf, h)[k] == xs[LastSlot(xs, nameOf, h, k)]
  {
    if xs != [] {
      var init := xs[..|xs| - 1];
      KeyedMapIsLast(init, nameOf, h, k);
      if Slot(xs[|xs| - 1], nameOf, h) != Some(k) {
        var i := LastSlot(init, nameOf, h, k);
        if i >= 0 {
          assert init[i] == xs[i];
        }
      }
    }
  }

  /** The chapter map never holds a chapter without a book. */
  lemma ChapterMapHasBooks(cs: seq<Chapter>, h: string -> Digest, k: Digest)
    requires k in KeyedMap(cs, ChapterMapName, h)
    ensures KeyedMap(cs, ChapterMapName, h)[k].book != null
  {
    KeyedMapValues(cs, ChapterMapName, h, k);
  }

  // ---------------------------------------------------------------------------
  // The string _retrieve_from_client_map hashes for a lookup object.

  /** A page loses its extension first; a chapter without a book raises AttributeError. */
  function LookupName(obj: Artifact): (r: Result<string>)
    ensures r.Err? <==> obj.ChapterObj? && obj.chapter.book == null
  {
    match obj
    case PageObj(p) =>
      var name := Stem(p.name);
      if p.chapter != null && p.book != null then Ok(name + p.book.name + p.chapter.name)
      else if p.book != null then Ok(name + p.book.name)
      else Ok(name)
    case BookObj(b) => if b.shelf != null then Ok(b.name + b.shelf.name) else Ok(b.name)
    case ShelfObj(s) => Ok(s.name)
    case ChapterObj(c) => if c.book != null then Ok(c.name + c.book.name) else Err(AttributeError)
  }

  /** Lookup and map building agree: for shelves, books and chapters with a book the
      lookup string is the map string; for a page it is the map string of the page
      renamed to its stem, so a page without extension looks up its own entry. */
  lemma LookupAgreesWithMap(obj: Artifact)
    ensures obj.ShelfObj? ==> LookupName(obj) == Ok(ShelfMapName(obj.shelf).value)
    ensures obj.BookObj? ==> LookupName(obj) == Ok(BookMapName(obj.book).value)
    ensures obj.ChapterObj? && obj.chapter.book != null ==>
      LookupName(obj) == Ok(ChapterMapName(obj.chapter).value)
    ensures obj.PageObj? && Ext(obj.page.name) == [] ==>
      LookupName(obj) == Ok(PageMapName(obj.page).value)
  {
  }

  /** A local page "todo.md" and a remote page "todo" in books and chapters of the same
      names are looked up under the remote page's map string. */
  lemma LocalPageFindsRemote(local: Page, remote: Page)
    requires Stem(local.name) == remote.name
    requires (local.book == null) == (remote.book == null)
    requires (local.chapter == null) == (remote.chapter == null)
    requires local.book != null ==> local.book.name == remote.book.name
    requires local.chapter != null && local.book != null ==> local.chapter.name == remote.chapter.name
    ensures LookupName(PageObj(local)) == Ok(PageMapName(remote).value)
  {
  }

  /** Concatenation without a delimiter: different name paths can hash alike. */
  lemma ConcatenationCollides(b1: Book, b2: Book)
    requires b1.name == "ab" && b1.shelf != null && b1.shelf.name == "c"
    requires b2.name == "a" && b2.shelf != null && b2.shelf.name == "bc"
    ensures b1.Lineage() != b2.Lineage()
    ensures BookMapName(b1) == BookMapName(b2)
  {
    assert b1.Lineage()[0] == "c";
    assert b2.Lineage()[0] == "bc";
    assert b1.name + b1.shelf.name == ['a', 'b', 'c'] == b2.name + b2.shelf.name;
  }
}
