/** The effects of the local client: the vault on disk as two path sets, and a trace
    of every call the client makes into code outside the model (collectors, HTTP,
    refreshes, file writes), in the order it makes them. */
module Effects {
  import opened Base
  import opened Paths
  import opened Artifacts

  /** The files and directories of the vault, by full path. */
  datatype Disk = Disk(files: set<string>, dirs: set<string>)

  datatype Op =
    | RemovedLocal(kind: ItemKind, path: string)   // os.remove or shutil.rmtree
    | DeletedRemote(kind: ItemKind, id: int)       // DELETE on the kind's endpoint with the id
    | CreatedRemoteMissing(kind: ItemKind)         // create_remote_missing_* of the kind's collector
    | CreatedLocalMissing(kind: ItemKind)          // create_local_missing_* of the kind's collector
    | UpdatedShelfBooks(books: set<Book>)          // book_collector.update_shelf_books
    | RefreshedClient                              // client._refresh()
    | RefreshedLocal                               // self._refresh()
    | PushedContent(local: Page, remote: Page)     // page_collector.update_local_content: the remote page gets the local text
    | PulledContent(local: Page, remote: Page)     // page_collector.update, written to local.path
  {
    /** A removal or deletion of one entity, at the level `kind`. */
    predicate Leveled() {
      RemovedLocal? || DeletedRemote?
    }
  }

  /** `x` is `p` or lies below it. */
  predicate Within(x: string, p: string) {
    x == p || (|x| > |p| && x[..|p|] == p && x[|p|] == Sep)
  }

  /** shutil.rmtree(p): `p` and everything below it disappear, and nothing else does. */
  function RemoveTree(d: Disk, p: string): (r: Disk)
    ensures r.files <= d.files && r.dirs <= d.dirs
    ensures p !in r.files && p !in r.dirs
    ensures forall x :: Within(x, p) ==> x !in r.files && x !in r.dirs
    ensures forall x :: x in d.dirs && !Within(x, p) ==> x in r.dirs
    ensures forall x :: x in d.files && !Within(x, p) ==> x in r.files
  {
    Disk(set x | x in d.files && !Within(x, p), set x | x in d.dirs && !Within(x, p))
  }

  /** How much deeper one level is than another: pages 3, chapters 2, books 1, shelves 0. */
  function Depth(kind: ItemKind): nat {
    match kind
    case PageItem => 3
    case ChapterItem => 2
    case BookItem => 1
    case ShelfItem => 0
  }

  /** The entity at `p` is not on disk: no page file, or no directory for any other level. */
  predicate Gone(d: Disk, kind: ItemKind, p: string) {
    if kind == PageItem then p !in d.files else p !in d.dirs
  }

  /** The local half of a removal of an entity of `kind` stored at `p`. A page is a file:
      if `p` exists it is os.remove'd, which raises IsADirectoryError for a directory.
      Any other kind is a directory, removed with rmtree when `p` is a directory. */
  function RemoveLocal(d: Disk, kind: ItemKind, p: string): (r: Result<(Disk, seq<Op>)>)
    ensures r.Err? <==> kind == PageItem && p !in d.files && p in d.dirs
    ensures r.Err? ==> r.fault == IsADirectoryError
    ensures r.Ok? ==> r.value.0.files <= d.files && r.value.0.dirs <= d.dirs
    ensures r.Ok? && kind == PageItem ==> p !in r.value.0.files
    ensures r.Ok? && kind != PageItem ==> p !in r.value.0.dirs
    ensures r.Ok? ==> r.value.1 == (if Gone(d, kind, p) then [] else [RemovedLocal(kind, p)])
    ensures r.Ok? && Gone(d, kind, p) ==> r.value.0 == d
    ensures r.Ok? && kind == PageItem ==> r.value.0 == Disk(d.files - {p}, d.dirs)
    ensures r.Ok? && kind != PageItem ==> r.value.0 == if p in d.dirs then RemoveTree(d, p) else d
  {
    if kind == PageItem then
      if p in d.files then Ok((d.(files := d.files - {p}), [RemovedLocal(kind, p)]))
      else if p in d.dirs then Err(IsADirectoryError)
      else Ok((d, []))
    else if p in d.dirs then Ok((RemoveTree(d, p), [RemovedLocal(kind, p)]))
    else Ok((d, []))
  }

  /** What the removal of the entity of `kind` at `p` may take away: a page file is
      only itself, a directory is everything below it. */
  predicate Covers(kind: ItemKind, p: string, x: string) {
    if kind == PageItem then x == p else Within(x, p)
  }

  /** No entity at `paths` covers `x`. */
  predicate Spared(kind: ItemKind, paths: seq<string>, x: string) {
    forall i :: 0 <= i < |paths| ==> !Covers(kind, paths[i], x)
  }

  /** Everything of `d` that the entities at `paths` do not cover is still on `d'`;
      removing pages keeps every directory. */
  predicate Keeps(d: Disk, d': Disk, kind: ItemKind, paths: seq<string>) {
    && (forall x :: x in d.files && Spared(kind, paths, x) ==> x in d'.files)
    && (forall x :: x in d.dirs && (kind == PageItem || Spared(kind, paths, x)) ==> x in d'.dirs)
  }

  /** The levels in purge order: most nested first. */
  const PurgeOrder: seq<ItemKind> := [PageItem, ChapterItem, BookItem, ShelfItem]

  /** Every op of the trace is a removal or deletion at one of `kinds`. */
  predicate AtLevels(ops: seq<Op>, kinds: set<ItemKind>) {
    forall i :: 0 <= i < |ops| ==> ops[i].Leveled() && ops[i].kind in kinds
  }

  lemma AtLevelsAppend(a: seq<Op>, ka: set<ItemKind>, b: seq<Op>, kb: set<ItemKind>)
    requires AtLevels(a, ka) && AtLevels(b, kb)
    ensures AtLevels(a + b, ka + kb)
  {
    forall i | 0 <= i < |a + b|
      ensures (a + b)[i].Leveled() && (a + b)[i].kind in ka + kb
    {
      if i < |a| {
        assert (a + b)[i] == a[i];
      } else {
        assert (a + b)[i] == b[i - |a|];
      }
    }
  }

  /** Removals and deletions never go from a shallower level back to a deeper one. */
  predicate MostNestedFirst(ops: seq<Op>) {
    forall i, j :: 0 <= i < j < |ops| && ops[i].Leveled() && ops[j].Leveled() ==>
      Depth(ops[j].kind) <= Depth(ops[i].kind)
  }

  /** A trace at one level followed by a trace at shallower levels is most-nested-first. */
  lemma NestedAppend(a: seq<Op>, kind: ItemKind, b: seq<Op>, rest: set<ItemKind>)
    requires AtLevels(a, {kind}) && AtLevels(b, rest) && MostNestedFirst(b)
    requires forall k :: k in rest ==> Depth(k) <= Depth(kind)
    ensures MostNestedFirst(a + b)
  {
    var ab := a + b;
    forall i, j | 0 <= i < j < |ab| && ab[i].Leveled() && ab[j].Leveled()
      ensures Depth(ab[j].kind) <= Depth(ab[i].kind)
    {
      if j < |a| {
        assert ab[i] == a[i] && ab[j] == a[j];
      } else if i < |a| {
        assert ab[i] == a[i] && ab[j] == b[j - |a|];
      } else {
        assert ab[i] == b[i - |a|] && ab[j] == b[j - |a|];
      }
    }
  }
}
