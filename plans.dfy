/** What the local client's operations do, as functions of the state they start from:
    delete, the two purges, the update decision and the sync phase orders. The methods
    of `Local.Bookstack` are proved to follow these. */
module Plans {
  import opened Base
  import opened Paths
  import opened Artifacts
  import opened Identity
  import opened DeleteTargets
  import opened Remote
  import opened Effects

  /** The state a sequence of steps threads through: the disk, the trace so far, and
      the exception that stopped the sequence, if one did. */
  datatype Run = Run(disk: Disk, ops: seq<Op>, fault: Option<Fault>)

  // ---------------------------------------------------------------------------
  // purge_local

  predicate Shrinks(d: Disk, d': Disk) {
    d'.files <= d.files && d'.dirs <= d.dirs
  }

  /** One purge_local loop: remove the entity at each path in turn; an exception ends the loop. */
  function RemoveEach(r: Run, kind: ItemKind, paths: seq<string>): (out: Run)
    ensures r.fault.Some? ==> out == r
    ensures Shrinks(r.disk, out.disk)
    decreases |paths|
  {
    if r.fault.Some? || paths == [] then r
    else
      match RemoveLocal(r.disk, kind, paths[0])
      case Err(f) => r.(fault := Some(f))
      case Ok((d, o)) => RemoveEach(Run(d, r.ops + o, None), kind, paths[1..])
  }

  /** The `path` of every item. */
  function LocalPaths(items: seq<Artifact>): (r: seq<string>)
    ensures |r| == |items|
    ensures forall i :: 0 <= i < |items| ==> r[i] == items[i].Path()
  {
    if items == [] then [] else [items[0].Path()] + LocalPaths(items[1..])
  }

  /** purge_local: the pages, then the chapters, books and shelves that the collectors
      report missing remotely. */
  function PurgeLocalRun(r: Run, missing: ItemKind -> seq<Artifact>): (out: Run)
    ensures r.fault.Some? ==> out == r
    ensures Shrinks(r.disk, out.disk)
  {
    var r1 := RemoveEach(r, PageItem, LocalPaths(missing(PageItem)));
    var r2 := RemoveEach(r1, ChapterItem, LocalPaths(missing(ChapterItem)));
    var r3 := RemoveEach(r2, BookItem, LocalPaths(missing(BookItem)));
    RemoveEach(r3, ShelfItem, LocalPaths(missing(ShelfItem)))
  }

  /** `out` extends the trace of `r` with removals and deletions at `kinds` only. */
  predicate Appends(r: Run, out: Run, kinds: set<ItemKind>) {
    |r.ops| <= |out.ops| && out.ops[..|r.ops|] == r.ops && AtLevels(out.ops[|r.ops|..], kinds)
  }

  /** One removal loop only appends removals at its level. */
  lemma {:induction false} RemoveEachTrace(r: Run, kind: ItemKind, paths: seq<string>)
    ensures Appends(r, RemoveEach(r, kind, paths), {kind})
    ensures r.fault.Some? ==> RemoveEach(r, kind, paths) == r
    decreases |paths|
  {
    var out := RemoveEach(r, kind, paths);
    if r.fault.None? && paths != [] {
      match RemoveLocal(r.disk, kind, paths[0])
      case Err(f) =>
      case Ok((d, o)) =>
        var next := Run(d, r.ops + o, None);
        RemoveEachTrace(next, kind, paths[1..]);
        assert out.ops[|r.ops|..] == o + out.ops[|next.ops|..];
        assert AtLevels(o, {kind});
    }
  }

  /** One removal loop only shrinks the disk; when it finishes, none of its paths is
      left; it stops only on a page path that is a directory. */
  lemma {:induction false} RemoveEachDisk(r: Run, kind: ItemKind, paths: seq<string>)
    requires r.fault.None?
    ensures Shrinks(r.disk, RemoveEach(r, kind, paths).disk)
    ensures RemoveEach(r, kind, paths).fault.None? ==>
      forall p :: p in paths ==> Gone(RemoveEach(r, kind, paths).disk, kind, p)
    ensures RemoveEach(r, kind, paths).fault.Some? ==>
      RemoveEach(r, kind, paths).fault == Some(IsADirectoryError) && kind == PageItem
    ensures Keeps(r.disk, RemoveEach(r, kind, paths).disk, kind, paths)
    decreases |paths|
  {
    RemoveEachKeeps(r, kind, paths);
    var out := RemoveEach(r, kind, paths);
    if paths != [] {
      match RemoveLocal(r.disk, kind, paths[0])
      case Err(f) =>
      case Ok((d, o)) =>
        assert Gone(d, kind, paths[0]);
        var next := Run(d, r.ops + o, None);
        RemoveEachDisk(next, kind, paths[1..]);
        forall p | p in paths
          ensures out.fault.None? ==> Gone(out.disk, kind, p)
        {
          if p != paths[0] {
            assert p in paths[1..];
          }
        }
    }
  }

  /** One removal loop takes away nothing but its paths and what lies below them. */
  lemma {:induction false} RemoveEachKeeps(r: Run, kind: ItemKind, paths: seq<string>)
    ensures Keeps(r.disk, RemoveEach(r, kind, paths).disk, kind, paths)
    decreases |paths|
  {
    var out := RemoveEach(r, kind, paths);
    if r.fault.None? && paths != [] {
      match RemoveLocal(r.disk, kind, paths[0])
      case Err(f) =>
      case Ok((d, o)) =>
        var next := Run(d, r.ops + o, None);
        RemoveEachKeeps(next, kind, paths[1..]);
        forall x | Spared(kind, paths, x)
          ensures Spared(kind, paths[1..], x) && !Covers(kind, paths[0], x)
        {
          forall i | 0 <= i < |paths[1..]|
            ensures !Covers(kind, paths[1..][i], x)
          {
            assert paths[1..][i] == paths[i + 1];
          }
        }
    }
  }

  /** `out` extends `r` with removals and deletions at `kinds`, deeper levels first. */
  predicate Stage(r: Run, out: Run, kinds: set<ItemKind>) {
    Appends(r, out, kinds) && MostNestedFirst(out.ops[|r.ops|..])
  }

  /** A stage at one level followed by a stage at shallower levels is one stage. */
  lemma StageCompose(r: Run, m: Run, out: Run, kind: ItemKind, rest: set<ItemKind>)
    requires Appends(r, m, {kind}) && Stage(m, out, rest)
    requires forall k :: k in rest ==> Depth(k) <= Depth(kind)
    ensures Stage(r, out, {kind} + rest)
  {
    var a, b := m.ops[|r.ops|..], out.ops[|m.ops|..];
    assert out.ops[..|r.ops|] == m.ops[..|m.ops|][..|r.ops|];
    assert out.ops[|r.ops|..] == a + b;
    NestedAppend(a, kind, b, rest);
    AtLevelsAppend(a, {kind}, b, rest);
  }

  /** Purge order, locally: every removal of a deeper level comes before every removal
      of a shallower one. */
  lemma PurgeLocalOrder(r: Run, missing: ItemKind -> seq<Artifact>)
    ensures Stage(r, PurgeLocalRun(r, missing), set k | k in PurgeOrder)
  {
    var r1 := RemoveEach(r, PageItem, LocalPaths(missing(PageItem)));
    var r2 := RemoveEach(r1, ChapterItem, LocalPaths(missing(ChapterItem)));
    var r3 := RemoveEach(r2, BookItem, LocalPaths(missing(BookItem)));
    var r4 := RemoveEach(r3, ShelfItem, LocalPaths(missing(ShelfItem)));
    RemoveEachTrace(r, PageItem, LocalPaths(missing(PageItem)));
    RemoveEachTrace(r1, ChapterItem, LocalPaths(missing(ChapterItem)));
    RemoveEachTrace(r2, BookItem, LocalPaths(missing(BookItem)));
    RemoveEachTrace(r3, ShelfItem, LocalPaths(missing(ShelfItem)));
    FourStages(r, r1, r2, r3, r4);
  }

  /** Four traces at the purge levels, one after the other, make one stage. */
  lemma FourStages(r: Run, r1: Run, r2: Run, r3: Run, r4: Run)
    requires Appends(r, r1, {PageItem}) && Appends(r1, r2, {ChapterItem})
    requires Appends(r2, r3, {BookItem}) && Appends(r3, r4, {ShelfItem})
    ensures Stage(r, r4, set k | k in PurgeOrder)
  {
    assert Stage(r3, r4, {ShelfItem});
    StageCompose(r2, r3, r4, BookItem, {ShelfItem});
    StageCompose(r1, r2, r4, ChapterItem, {BookItem, ShelfItem});
    StageCompose(r, r1, r4, PageItem, {ChapterItem, BookItem, ShelfItem});
    assert (set k | k in PurgeOrder) == {PageItem, ChapterItem, BookItem, ShelfItem};
  }

  /** No entity that the collectors report missing remotely covers `x`. */
  predicate Unmissed(missing: ItemKind -> seq<Artifact>, x: string) {
    forall k: ItemKind :: Spared(k, LocalPaths(missing(k)), x)
  }

  /** purge_local takes away only the missing entities and what lies below them:
      every other file and directory survives, whether or not the purge finishes. */
  lemma PurgeLocalKeeps(r: Run, missing: ItemKind -> seq<Artifact>)
    ensures var out := PurgeLocalRun(r, missing);
      && (forall x :: x in r.disk.files && Unmissed(missing, x) ==> x in out.disk.files)
      && (forall x :: x in r.disk.dirs && Unmissed(missing, x) ==> x in out.disk.dirs)
  {
    var pp, cp, bp, sp := LocalPaths(missing(PageItem)), LocalPaths(missing(ChapterItem)),
      LocalPaths(missing(BookItem)), LocalPaths(missing(ShelfItem));
    var r1 := RemoveEach(r, PageItem, pp);
    var r2 := RemoveEach(r1, ChapterItem, cp);
    var r3 := RemoveEach(r2, BookItem, bp);
    var r4 := RemoveEach(r3, ShelfItem, sp);
    RemoveEachKeeps(r, PageItem, pp);
    RemoveEachKeeps(r1, ChapterItem, cp);
    RemoveEachKeeps(r2, BookItem, bp);
    RemoveEachKeeps(r3, ShelfItem, sp);
    forall x | Unmissed(missing, x)
      ensures Spared(PageItem, pp, x) && Spared(ChapterItem, cp, x)
      ensures Spared(BookItem, bp, x) && Spared(ShelfItem, sp, x)
    {
    }
  }

  /** A purge_local that finishes leaves none of the extra entities on disk; only a
      page path that is a directory stops it. */
  lemma PurgeLocalClears(r: Run, missing: ItemKind -> seq<Artifact>)
    requires r.fault.None?
    ensures var out := PurgeLocalRun(r, missing);
      && (out.fault.Some? ==> out.fault == Some(IsADirectoryError))
      && (out.fault.None? ==> forall k: ItemKind, i :: 0 <= i < |missing(k)| ==> Gone(out.disk, k, missing(k)[i].Path()))
      && (forall x :: x in r.disk.files && Unmissed(missing, x) ==> x in out.disk.files)
      && (forall x :: x in r.disk.dirs && Unmissed(missing, x) ==> x in out.disk.dirs)
  {
    PurgeLocalKeeps(r, missing);
    var pp, cp, bp, sp := LocalPaths(missing(PageItem)), LocalPaths(missing(ChapterItem)),
      LocalPaths(missing(BookItem)), LocalPaths(missing(ShelfItem));
    var r1 := RemoveEach(r, PageItem, pp);
    var r2 := RemoveEach(r1, ChapterItem, cp);
    var r3 := RemoveEach(r2, BookItem, bp);
    var r4 := RemoveEach(r3, ShelfItem, sp);
    RemoveEachDisk(r, PageItem, pp);
    if r1.fault.None? {
      RemoveEachDisk(r1, ChapterItem, cp);
      if r2.fault.None? {
        RemoveEachDisk(r2, BookItem, bp);
        if r3.fault.None? {
          RemoveEachDisk(r3, ShelfItem, sp);
          forall k: ItemKind, i | 0 <= i < |missing(k)|
            ensures Gone(r4.disk, k, missing(k)[i].Path())
          {
            var p := missing(k)[i].Path();
            match k
            case PageItem => assert p == pp[i] && pp[i] in pp;
            case ChapterItem => assert p == cp[i] && cp[i] in cp;
            case BookItem => assert p == bp[i] && bp[i] in bp;
            case ShelfItem => assert p == sp[i] && sp[i] in sp;
          }
        } else {
          RemoveEachTrace(r3, ShelfItem, sp);
        }
      } else {
        RemoveEachTrace(r2, BookItem, bp);
        RemoveEachTrace(r3, ShelfItem, sp);
      }
    } else {
      RemoveEachTrace(r1, ChapterItem, cp);
      RemoveEachTrace(r2, BookItem, bp);
      RemoveEachTrace(r3, ShelfItem, sp);
    }
  }

  // ---------------------------------------------------------------------------
  // delete

  /** What `delete` reports: the remote id it deleted, the warning that the remote
      entity was not found, or the exception it raised. */
  datatype DeleteOutcome = DeletedRemotely(id: int) | NotFoundRemotely | Raised(fault: Fault)

  /** The remote half of delete(kind, item_path): the lookup object is rebuilt from the
      parts and looked up; a missing key ends the call with a warning; otherwise the
      entity's id is read and the remote delete sent. Specifies
      Local.Bookstack.DeleteRemotely. */
  function DeleteRemoteHalf(c: BookstackClient, kind: ItemKind, parts: seq<string>): (seq<Op>, DeleteOutcome)
    reads c
  {
    match TargetOf(kind, parts)
    case Err(f) => ([], Raised(f))
    case Ok(t) => SendDelete(kind, c.Find(kind, TargetName(t)))
  }

  /** After the lookup: a KeyError is caught with a warning; otherwise the DELETE goes
      to the found entity's id, and a missing id raises KeyError. */
  function SendDelete(kind: ItemKind, found: Result<Artifact>): (seq<Op>, DeleteOutcome) {
    match found
    case Err(_) => ([], NotFoundRemotely)
    case Ok(obj) =>
      match obj.Details().id
      case None => ([], Raised(KeyError))
      case Some(id) => ([DeletedRemote(kind, id)], DeletedRemotely(id))
  }

  /** delete(kind, item_path): the local half runs first, on the path built from the
      parts; a fault there ends the call, otherwise the remote half follows. Specifies
      Local.Bookstack.Delete. */
  function DeleteEffect(d: Disk, root: string, c: BookstackClient, kind: ItemKind, itemPath: string)
    : (e: (Disk, seq<Op>, DeleteOutcome))
    reads c
  {
    LocalThenRemote(d, RemoveLocal(d, kind, LocalDeletePath(root, kind, Split(itemPath))),
                    DeleteRemoteHalf(c, kind, Split(itemPath)))
  }

  /** The local half's outcome, followed, unless it failed, by the remote half's. */
  function LocalThenRemote(d: Disk, local: Result<(Disk, seq<Op>)>, remote: (seq<Op>, DeleteOutcome))
    : (Disk, seq<Op>, DeleteOutcome)
  {
    if local.Err? then (d, [], Raised(local.fault))
    else (local.value.0, local.value.1 + remote.0, remote.1)
  }

  /** The outcomes of the remote half: too few parts raise IndexError; a missing key
      sends nothing; an entity without an id raises KeyError; otherwise exactly one
      delete is sent, with the id of the entity found under the rebuilt target. */
  lemma DeleteRemoteOutcomes(c: BookstackClient, kind: ItemKind, parts: seq<string>)
    ensures var (o, out) := DeleteRemoteHalf(c, kind, parts);
      && AtLevels(o, {kind})
      && (out == Raised(IndexError) <==> |parts| < MinParts(kind))
      && (out.Raised? ==> o == [] && (out.fault == IndexError || out.fault == KeyError))
      && (out == NotFoundRemotely <==>
            TargetOf(kind, parts).Ok? && c.Find(kind, TargetName(TargetOf(kind, parts).value)).Err?)
      && (out == NotFoundRemotely ==> o == [])
  {
    match TargetOf(kind, parts)
    case Err(f) =>
    case Ok(t) =>
      assert |parts| >= MinParts(kind);
      var found := c.Find(kind, TargetName(t));
      assert DeleteRemoteHalf(c, kind, parts) == SendDelete(kind, found);
      SendDeleteOutcomes(kind, found);
  }

  lemma SendDeleteOutcomes(kind: ItemKind, found: Result<Artifact>)
    ensures var (o, out) := SendDelete(kind, found);
      && AtLevels(o, {kind})
      && out != Raised(IndexError)
      && (out.Raised? ==> o == [] && out.fault == KeyError)
      && (out == NotFoundRemotely <==> found.Err?)
      && (out == NotFoundRemotely ==> o == [])
  {
  }

  lemma DeleteRemoteSends(c: BookstackClient, kind: ItemKind, parts: seq<string>)
    ensures var (o, out) := DeleteRemoteHalf(c, kind, parts);
      out.DeletedRemotely? ==>
        && TargetOf(kind, parts).Ok?
        && c.Find(kind, TargetName(TargetOf(kind, parts).value)).Ok?
        && c.Find(kind, TargetName(TargetOf(kind, parts).value)).value.Details().id == Some(out.id)
        && o == [DeletedRemote(kind, out.id)]
  {
  }

  /** The local half always runs first: a fault there (a page path that is a directory)
      ends the call with nothing sent; otherwise the local removal is the first part of
      the trace, and the remote half never raises IsADirectoryError. */
  lemma DeleteLocalFirst(d: Disk, root: string, c: BookstackClient, kind: ItemKind, itemPath: string)
    ensures var local := RemoveLocal(d, kind, LocalDeletePath(root, kind, Split(itemPath)));
      var (d', o, out) := DeleteEffect(d, root, c, kind, itemPath);
      && (local.Err? <==> out == Raised(IsADirectoryError))
      && (local.Err? ==> d' == d && o == [])
      && (local.Ok? ==> d' == local.value.0 && |local.value.1| <= |o| && o[..|local.value.1|] == local.value.1)
  {
    var parts := Split(itemPath);
    var local := RemoveLocal(d, kind, LocalDeletePath(root, kind, parts));
    DeleteRemoteOutcomes(c, kind, parts);
    if local.Ok? {
      var o := local.value.1 + DeleteRemoteHalf(c, kind, parts).0;
      assert o[..|local.value.1|] == local.value.1;
    }
  }

  /** One purge_remote level: delete each path in turn; an exception ends the purge. */
  function DeleteEach(r: Run, root: string, c: BookstackClient, kind: ItemKind, paths: seq<string>): (out: Run)
    reads c
    ensures r.fault.Some? ==> out == r
    ensures Shrinks(r.disk, out.disk)
    decreases |paths|
  {
    if r.fault.Some? || paths == [] then r
    else
      var (d, o, out) := DeleteEffect(r.disk, root, c, kind, paths[0]);
      var next := Run(d, r.ops + o, if out.Raised? then Some(out.fault) else None);
      DeleteEach(next, root, c, kind, paths[1..])
  }

  /** get_full_path_str of every item. */
  function FullPaths(items: seq<Artifact>): (r: seq<string>)
    ensures |r| == |items|
    ensures forall i :: 0 <= i < |items| ==> r[i] == items[i].FullPath()
  {
    if items == [] then [] else [items[0].FullPath()] + FullPaths(items[1..])
  }

  /** purge_remote over `levels`: for each level, delete every item the collector
      reports missing locally. */
  function PurgeRemoteRun(r: Run, root: string, c: BookstackClient, missing: ItemKind -> seq<Artifact>,
                          levels: seq<ItemKind>): (out: Run)
    reads c
    ensures r.fault.Some? ==> out == r
    ensures Shrinks(r.disk, out.disk)
    decreases |levels|
  {
    if levels == [] || r.fault.Some? then r
    else PurgeRemoteRun(DeleteEach(r, root, c, levels[0], FullPaths(missing(levels[0]))), root, c, missing, levels[1..])
  }

  /** Helper: DeleteEffect is the local half followed by the remote half, its ops appended to a trace. */
  lemma DeleteEffectSplit(d: Disk, root: string, c: BookstackClient, kind: ItemKind, itemPath: string,
                          before: seq<Op>, o1: seq<Op>, o2: seq<Op>)
    requires var local := RemoveLocal(d, kind, LocalDeletePath(root, kind, Split(itemPath)));
      local.Ok? && o1 == local.value.1 && o2 == DeleteRemoteHalf(c, kind, Split(itemPath)).0
    ensures before + o1 + o2 == before + DeleteEffect(d, root, c, kind, itemPath).1
  {
    var parts := Split(itemPath);
    var local := RemoveLocal(d, kind, LocalDeletePath(root, kind, parts));
    var remote := DeleteRemoteHalf(c, kind, parts);
    assert DeleteEffect(d, root, c, kind, itemPath) == LocalThenRemote(d, local, remote);
    assert LocalThenRemote(d, local, remote).1 == o1 + o2;
    Reassociate(before, o1, o2);
  }

  /** A delete only removes and deletes at its own level. */
  lemma DeleteEffectLevel(d: Disk, root: string, c: BookstackClient, kind: ItemKind, itemPath: string)
    ensures AtLevels(DeleteEffect(d, root, c, kind, itemPath).1, {kind})
  {
    var parts := Split(itemPath);
    var local := RemoveLocal(d, kind, LocalDeletePath(root, kind, parts));
    var remote := DeleteRemoteHalf(c, kind, parts);
    assert DeleteEffect(d, root, c, kind, itemPath) == LocalThenRemote(d, local, remote);
    if local.Ok? {
      assert AtLevels(local.value.1, {kind});
      RemoteHalfLevel(c, kind, parts);
      AtLevelsAppend(local.value.1, {kind}, remote.0, {kind});
    }
  }

  /** Helper: the remote half deletes at its own level only. */
  lemma RemoteHalfLevel(c: BookstackClient, kind: ItemKind, parts: seq<string>)
    ensures AtLevels(DeleteRemoteHalf(c, kind, parts).0, {kind})
  {
    match TargetOf(kind, parts)
    case Err(f) =>
    case Ok(t) =>
      var found := c.Find(kind, TargetName(t));
      assert DeleteRemoteHalf(c, kind, parts) == SendDelete(kind, found);
      SendDeleteLevel(kind, found);
  }

  lemma SendDeleteLevel(kind: ItemKind, found: Result<Artifact>)
    ensures AtLevels(SendDelete(kind, found).0, {kind})
  {
  }

  lemma {:induction false} DeleteEachTrace(r: Run, root: string, c: BookstackClient, kind: ItemKind, paths: seq<string>)
    ensures Appends(r, DeleteEach(r, root, c, kind, paths), {kind})
    ensures r.fault.Some? ==> DeleteEach(r, root, c, kind, paths) == r
    decreases |paths|
  {
    if r.fault.None? && paths != [] {
      var e := DeleteEffect(r.disk, root, c, kind, paths[0]);
      DeleteEffectLevel(r.disk, root, c, kind, paths[0]);
      var next := Run(e.0, r.ops + e.1, if e.2.Raised? then Some(e.2.fault) else None);
      DeleteEachTrace(next, root, c, kind, paths[1..]);
      AppendsStep(r, e.1, next, DeleteEach(next, root, c, kind, paths[1..]), kind);
    }
  }

  /** Helper: one step of a loop at a level followed by the rest of the loop at that level. */
  lemma AppendsStep(r: Run, o: seq<Op>, next: Run, fin: Run, kind: ItemKind)
    requires next.ops == r.ops + o && AtLevels(o, {kind}) && Appends(next, fin, {kind})
    ensures Appends(r, fin, {kind})
  {
    assert fin.ops[..|r.ops|] == next.ops[..|next.ops|][..|r.ops|];
    assert fin.ops == next.ops + fin.ops[|next.ops|..];
    assert fin.ops[|r.ops|..] == o + fin.ops[|next.ops|..];
    AtLevelsAppend(o, {kind}, fin.ops[|next.ops|..], {kind});
  }

  /** Levels listed from deeper to shallower. */
  predicate Descending(levels: seq<ItemKind>) {
    forall i, j :: 0 <= i < j < |levels| ==> Depth(levels[j]) <= Depth(levels[i])
  }

  lemma {:induction false} PurgeRemoteNested(r: Run, root: string, c: BookstackClient,
                                             missing: ItemKind -> seq<Artifact>, levels: seq<ItemKind>)
    requires Descending(levels)
    ensures Stage(r, PurgeRemoteRun(r, root, c, missing, levels), set k | k in levels)
    decreases |levels|
  {
    var out := PurgeRemoteRun(r, root, c, missing, levels);
    if levels == [] {
      assert out == r;
      assert out.ops[|r.ops|..] == [];
    } else {
      var r1 := DeleteEach(r, root, c, levels[0], FullPaths(missing(levels[0])));
      DeleteEachTrace(r, root, c, levels[0], FullPaths(missing(levels[0])));
      PurgeRemoteNested(r1, root, c, missing, levels[1..]);
      var rest := set k | k in levels[1..];
      DescendingRest(levels);
      StageCompose(r, r1, out, levels[0], rest);
    }
  }

  /** Helper: the levels after the first of a descending list are no deeper than it. */
  lemma DescendingRest(levels: seq<ItemKind>)
    requires Descending(levels) && levels != []
    ensures forall k :: k in (set k | k in levels[1..]) ==> Depth(k) <= Depth(levels[0])
    ensures {levels[0]} + (set k | k in levels[1..]) == set k | k in levels
  {
    forall k | k in levels[1..]
      ensures Depth(k) <= Depth(levels[0])
    {
      var j :| 0 <= j < |levels[1..]| && levels[1..][j] == k;
      assert levels[j + 1] == k;
    }
  }

  /** Purge order, remotely: the levels run pages, chapters, books, shelves, so every
      removal and deletion of a deeper level comes before any of a shallower one. */
  lemma PurgeRemoteOrder(r: Run, root: string, c: BookstackClient, missing: ItemKind -> seq<Artifact>)
    ensures Stage(r, PurgeRemoteRun(r, root, c, missing, PurgeOrder), set k | k in PurgeOrder)
  {
    PurgeRemoteNested(r, root, c, missing, PurgeOrder);
  }

  // ---------------------------------------------------------------------------
  // purge_remote relies on the round trip of get_full_path_str

  /** The step a delete of a remote shelf's own path reaches: it finds that shelf. */
  lemma PurgedShelfFindsItself(c: BookstackClient, i: nat)
    requires c.Valid() && i < |c.shelves| && PlainNames(c.shelves[i].Lineage())
    requires forall j :: i < j < |c.shelves| ==>
      Slot(c.shelves[j], ShelfMapName, c.conHash) != Slot(c.shelves[i], ShelfMapName, c.conHash)
    ensures var s := c.shelves[i]; var t := TargetOf(ShelfItem, Split(s.FullPath()));
      t.Ok? && c.Find(ShelfItem, TargetName(t.value)) == Ok(ShelfObj(s))
  {
    ShelfRoundTrip(c.shelves[i]);
    KeyedMapLastWins(c.shelves, ShelfMapName, c.conHash, i);
  }

  lemma PurgedBookFindsItself(c: BookstackClient, i: nat)
    requires c.Valid() && i < |c.books| && c.books[i].shelf != null && PlainNames(c.books[i].Lineage())
    requires forall j :: i < j < |c.books| ==>
      Slot(c.books[j], BookMapName, c.conHash) != Slot(c.books[i], BookMapName, c.conHash)
    ensures var b := c.books[i]; var t := TargetOf(BookItem, Split(b.FullPath()));
      t.Ok? && c.Find(BookItem, TargetName(t.value)) == Ok(BookObj(b))
  {
    BookRoundTrip(c.books[i]);
    KeyedMapLastWins(c.books, BookMapName, c.conHash, i);
  }

  lemma PurgedChapterFindsItself(c: BookstackClient, i: nat)
    requires c.Valid() && i < |c.chapters|
    requires c.chapters[i].book != null && c.chapters[i].book.shelf != null && PlainNames(c.chapters[i].Lineage())
    requires forall j :: i < j < |c.chapters| ==>
      Slot(c.chapters[j], ChapterMapName, c.conHash) != Slot(c.chapters[i], ChapterMapName, c.conHash)
    ensures var ch := c.chapters[i]; var t := TargetOf(ChapterItem, Split(ch.FullPath()));
      t.Ok? && c.Find(ChapterItem, TargetName(t.value)) == Ok(ChapterObj(ch))
  {
    ChapterRoundTrip(c.chapters[i]);
    KeyedMapLastWins(c.chapters, ChapterMapName, c.conHash, i);
  }

  lemma PurgedPageFindsItself(c: BookstackClient, i: nat)
    requires c.Valid() && i < |c.pages|
    requires ShelvedPage(c.pages[i]) && PlainNames(c.pages[i].Lineage()) && Ext(c.pages[i].name) == []
    requires forall j :: i < j < |c.pages| ==>
      Slot(c.pages[j], PageMapName, c.conHash) != Slot(c.pages[i], PageMapName, c.conHash)
    ensures var p := c.pages[i]; var t := TargetOf(PageItem, Split(p.FullPath()));
      t.Ok? && c.Find(PageItem, TargetName(t.value)) == Ok(PageObj(p))
  {
    PageRoundTrip(c.pages[i]);
    PageFound(c, i);
  }

  /** But a remote page named "v1.2" is rebuilt as the stem "v1": when its book also holds
      a page named "v1", deleting "v1.2" by its own full path sends the DELETE for the
      sibling "v1" instead. */
  lemma DottedPageDeletesSibling(c: BookstackClient, q: Page, p: Page)
    requires c.Valid() && c.pages == [q, p]
    requires p.name == "v1.2" && q.name == "v1" && p.chapter == null && q.chapter == null
    requires p.book == q.book && p.book != null && p.book.shelf != null
    requires p.book.name == "b" && p.book.shelf.name == "s"
    requires q.details.id == Some(7)
    requires c.conHash("v1b") != c.conHash("v1.2b")
    ensures DeleteRemoteHalf(c, PageItem, Split(p.FullPath())) == ([DeletedRemote(PageItem, 7)], DeletedRemotely(7))
  {
    DottedPageTarget(p);
    SiblingKeys(q, p);
    SiblingDeleted(c, q, p, Split(p.FullPath()), BookPageTarget("s", "b", "v1"));
  }

  /** Of two remote pages under different digests, a delete whose parts rebuild into the
      first one's key sends the DELETE for the first. */
  lemma SiblingDeleted(c: BookstackClient, q: Page, p: Page, parts: seq<string>, t: Target)
    requires c.Valid() && c.pages == [q, p]
    requires Slot(q, PageMapName, c.conHash) != Slot(p, PageMapName, c.conHash)
    requires TargetOf(PageItem, parts) == Ok(t) && TargetName(t) == PageMapName(q).value
    requires q.details.id.Some?
    ensures DeleteRemoteHalf(c, PageItem, parts) ==
      ([DeletedRemote(PageItem, q.details.id.value)], DeletedRemotely(q.details.id.value))
  {
    FirstPageFound(c, q, p);
    RemoteHalfFinds(c, PageItem, parts, t, PageObj(q));
  }

  /** Of two remote pages under different digests, the first is found by its own map string. */
  lemma FirstPageFound(c: BookstackClient, q: Page, p: Page)
    requires c.Valid() && c.pages == [q, p]
    requires Slot(q, PageMapName, c.conHash) != Slot(p, PageMapName, c.conHash)
    ensures c.Find(PageItem, PageMapName(q).value) == Ok(PageObj(q))
  {
    assert forall j :: 0 < j < |c.pages| ==> c.pages[j] == p;
    PageFound(c, 0);
  }

  /** The keys of the pages "v1" and "v1.2" of book "b", and of the stem rebuilt from "v1.2". */
  lemma SiblingKeys(q: Page, p: Page)
    requires p.name == "v1.2" && q.name == "v1" && p.chapter == null && q.chapter == null
    requires p.book == q.book && p.book != null && p.book.name == "b"
    ensures TargetName(BookPageTarget("s", "b", "v1")) == "v1b" == PageMapName(q).value
    ensures PageMapName(p).value == "v1.2b"
  {
  }

  /** The remote half of a delete whose rebuilt target is found sends that entity's DELETE. */
  lemma RemoteHalfFinds(c: BookstackClient, kind: ItemKind, parts: seq<string>, t: Target, x: Artifact)
    requires TargetOf(kind, parts) == Ok(t) && c.Find(kind, TargetName(t)) == Ok(x) && x.Details().id.Some?
    ensures DeleteRemoteHalf(c, kind, parts) == ([DeletedRemote(kind, x.Details().id.value)], DeletedRemotely(x.Details().id.value))
  {
  }

  /** A remote page that no later page collides with is found by its own map string. */
  lemma PageFound(c: BookstackClient, i: nat)
    requires c.Valid() && i < |c.pages|
    requires forall j :: i < j < |c.pages| ==>
      Slot(c.pages[j], PageMapName, c.conHash) != Slot(c.pages[i], PageMapName, c.conHash)
    ensures c.Find(PageItem, PageMapName(c.pages[i]).value) == Ok(PageObj(c.pages[i]))
  {
    KeyedMapLastWins(c.pages, PageMapName, c.conHash, i);
  }

  /** So deleting a remote entity by its own full path sends the DELETE for its own id,
      once the local half has run. */
  lemma PurgedItemDeletesItself(d: Disk, root: string, c: BookstackClient, kind: ItemKind, itemPath: string, x: Artifact)
    requires RemoveLocal(d, kind, LocalDeletePath(root, kind, Split(itemPath))).Ok?
    requires TargetOf(kind, Split(itemPath)).Ok?
    requires c.Find(kind, TargetName(TargetOf(kind, Split(itemPath)).value)) == Ok(x)
    requires x.Details().id.Some?
    ensures DeleteEffect(d, root, c, kind, itemPath).2 == DeletedRemotely(x.Details().id.value)
    ensures DeleteEffect(d, root, c, kind, itemPath).1 ==
      RemoveLocal(d, kind, LocalDeletePath(root, kind, Split(itemPath))).value.1 + [DeletedRemote(kind, x.Details().id.value)]
  {
  }

  // ---------------------------------------------------------------------------
  // update_remote

  /** timedelta(seconds=5), in microseconds. */
  const Tolerance: int := 5_000_000

  datatype Direction = Push | Pull | Keep

  /** The update rule: with `remote`, push when the local file is newer by more than
      the tolerance; otherwise, with `local`, pull when the remote page is. */
  function Decide(remote: bool, local: bool, localTime: int, clientTime: int): (d: Direction)
    ensures d == Push <==> remote && localTime - clientTime > Tolerance
    ensures d == Pull <==> !remote && local && clientTime - localTime > Tolerance
  {
    if remote then
      if localTime > clientTime && localTime - clientTime > Tolerance then Push else Keep
    else if local then
      if localTime < clientTime && clientTime - localTime > Tolerance then Pull else Keep
    else Keep
  }

  /** Exactly five seconds is not enough; one microsecond more is. */
  lemma DecideBoundary(t: int, local: bool)
    ensures Decide(true, local, t + Tolerance, t) == Keep
    ensures Decide(true, local, t + Tolerance + 1, t) == Push
    ensures Decide(false, true, t, t + Tolerance) == Keep
    ensures Decide(false, true, t, t + Tolerance + 1) == Pull
  {
  }

  /** The flags are if/elif: with `remote` set, `local` is never looked at. */
  lemma DecideRemoteFirst(local: bool, localTime: int, clientTime: int)
    ensures Decide(true, local, localTime, clientTime) == Decide(true, !local, localTime, clientTime)
    ensures Decide(true, local, localTime, clientTime) != Pull
  {
  }

  /** Pushing and pulling are mirror images. */
  lemma DecideMirror(a: int, b: int)
    ensures Decide(true, false, a, b) == Push <==> Decide(false, true, b, a) == Pull
  {
  }

  /** A page update_remote gets through: its file is on disk, and its remote page is
      found and carries an updated_at. */
  predicate Resolvable(c: BookstackClient, mtimes: map<string, int>, page: Page)
    reads c
  {
    && page.path in mtimes
    && c.Retrieve(PageObj(page)).Ok?
    && c.Retrieve(PageObj(page)).value.Details().updatedAt.Some?
  }

  /** What update_remote is meant to emit for one page, read off the raw inequalities:
      a push under `remote` when the file is newer by more than the tolerance, a pull
      under `local` alone when the remote page is, nothing otherwise (and nothing for a
      page it cannot get through). */
  function Wish(c: BookstackClient, remote: bool, local: bool, mtimes: map<string, int>, page: Page)
    : seq<Op>
    reads c
  {
    if !Resolvable(c, mtimes, page) then []
    else
      var obj := c.Retrieve(PageObj(page)).value;
      var m, t := mtimes[page.path], obj.Details().updatedAt.value;
      if remote && m - t > Tolerance then [PushedContent(page, obj.page)]
      else if !remote && local && t - m > Tolerance then [PulledContent(page, obj.page)]
      else []
  }

  /** The ops of Wish, page after page. */
  function Wanted(c: BookstackClient, remote: bool, local: bool, mtimes: map<string, int>,
                  pages: seq<Page>): seq<Op>
    reads c
  {
    if pages == [] then [] else Wish(c, remote, local, mtimes, pages[0]) + Wanted(c, remote, local, mtimes, pages[1..])
  }

  /** One page of update_remote: stat the file, find the remote page, read its
      updated_at, decide. A missing file raises FileNotFoundError; a page missing
      remotely, or a remote page without updated_at, raises KeyError. */
  function UpdateStep(c: BookstackClient, remote: bool, local: bool, mtimes: map<string, int>, page: Page)
    : (r: Result<seq<Op>>)
    reads c
    ensures r.Ok? <==> Resolvable(c, mtimes, page)
    ensures r.Ok? ==> r.value == Wish(c, remote, local, mtimes, page) && |r.value| <= 1
    ensures r.Err? && page.path !in mtimes ==> r.fault == FileNotFoundError
  {
    if page.path !in mtimes then Err(FileNotFoundError)
    else
      match c.Retrieve(PageObj(page))
      case Err(f) => Err(f)
      case Ok(obj) =>
        match obj.Details().updatedAt
        case None => Err(KeyError)
        case Some(t) =>
          match Decide(remote, local, mtimes[page.path], t)
          case Push => Ok([PushedContent(page, obj.page)])
          case Pull => Ok([PulledContent(page, obj.page)])
          case Keep => Ok([])
  }

  /** update_remote: every page of the vault in turn; an exception ends the loop. */
  function UpdateEach(r: Run, c: BookstackClient, remote: bool, local: bool, mtimes: map<string, int>,
                      pages: seq<Page>): (out: Run)
    reads c
    ensures r.fault.Some? ==> out == r
    ensures out.disk == r.disk
    decreases |pages|
  {
    if r.fault.Some? || pages == [] then r
    else
      match UpdateStep(c, remote, local, mtimes, pages[0])
      case Err(f) => r.(fault := Some(f))
      case Ok(o) => UpdateEach(r.(ops := r.ops + o), c, remote, local, mtimes, pages[1..])
  }

  /** An op update_remote may emit: a push only under `remote` and a local file newer by
      more than the tolerance, a pull only under `local` alone and a remote page newer
      by more than the tolerance; in both, the remote page is the one the local page
      is looked up as. */
  predicate Justified(op: Op, c: BookstackClient, remote: bool, local: bool, mtimes: map<string, int>)
    reads c
  {
    match op
    case PushedContent(l, q) =>
      && remote && c.Retrieve(PageObj(l)) == Ok(PageObj(q))
      && l.path in mtimes && q.details.updatedAt.Some?
      && mtimes[l.path] - q.details.updatedAt.value > Tolerance
    case PulledContent(l, q) =>
      && !remote && local && c.Retrieve(PageObj(l)) == Ok(PageObj(q))
      && l.path in mtimes && q.details.updatedAt.Some?
      && q.details.updatedAt.value - mtimes[l.path] > Tolerance
    case _ => false
  }

  /** Every op update_remote emits is justified by the rule, and the disk is untouched. */
  lemma {:induction false} UpdateEachJustified(r: Run, c: BookstackClient, remote: bool, local: bool,
                                               mtimes: map<string, int>, pages: seq<Page>)
    ensures var out := UpdateEach(r, c, remote, local, mtimes, pages);
      && |r.ops| <= |out.ops| && out.ops[..|r.ops|] == r.ops && out.disk == r.disk
      && (forall i :: |r.ops| <= i < |out.ops| ==> Justified(out.ops[i], c, remote, local, mtimes))
      && (!remote && !local ==> out.ops == r.ops)
    decreases |pages|
  {
    if r.fault.None? && pages != [] {
      match UpdateStep(c, remote, local, mtimes, pages[0])
      case Err(f) =>
      case Ok(o) =>
        var next := r.(ops := r.ops + o);
        StepJustified(c, remote, local, mtimes, pages[0]);
        UpdateEachJustified(next, c, remote, local, mtimes, pages[1..]);
        var out := UpdateEach(next, c, remote, local, mtimes, pages[1..]);
        assert out == UpdateEach(r, c, remote, local, mtimes, pages);
        JustifiedPrefix(r.ops, o, out.ops, c, remote, local, mtimes);
    }
  }

  /** Helper: every op one page of update_remote emits is justified; with neither flag
      it emits none. */
  lemma StepJustified(c: BookstackClient, remote: bool, local: bool, mtimes: map<string, int>, page: Page)
    requires UpdateStep(c, remote, local, mtimes, page).Ok?
    ensures var o := UpdateStep(c, remote, local, mtimes, page).value;
      && (forall i :: 0 <= i < |o| ==> Justified(o[i], c, remote, local, mtimes))
      && (!remote && !local ==> o == [])
  {
  }

  /** Helper: a justified step followed by a justified rest. */
  lemma JustifiedPrefix(before: seq<Op>, o: seq<Op>, out: seq<Op>, c: BookstackClient, remote: bool,
                        local: bool, mtimes: map<string, int>)
    requires forall i :: 0 <= i < |o| ==> Justified(o[i], c, remote, local, mtimes)
    requires |before + o| <= |out| && out[..|before + o|] == before + o
    requires forall i :: |before + o| <= i < |out| ==> Justified(out[i], c, remote, local, mtimes)
    ensures |before| <= |out| && out[..|before|] == before
    ensures forall i :: |before| <= i < |out| ==> Justified(out[i], c, remote, local, mtimes)
  {
    assert out[..|before|] == (before + o)[..|before|];
    forall i | |before| <= i < |out|
      ensures Justified(out[i], c, remote, local, mtimes)
    {
      if i < |before + o| {
        assert out[i] == (before + o)[i] == o[i - |before|];
      }
    }
  }

  /** The other half: starting clean, update_remote runs to the end exactly when every
      page can be got through, and then it has emitted the push or pull each page calls
      for, in page order, and nothing else. */
  lemma {:induction false} UpdateEachComplete(r: Run, c: BookstackClient, remote: bool, local: bool,
                                              mtimes: map<string, int>, pages: seq<Page>)
    ensures var out := UpdateEach(r, c, remote, local, mtimes, pages);
      r.fault.None? ==>
        && (out.fault.None? <==> forall i :: 0 <= i < |pages| ==> Resolvable(c, mtimes, pages[i]))
        && (out.fault.None? ==> out.ops == r.ops + Wanted(c, remote, local, mtimes, pages))
    decreases |pages|
  {
    if r.fault.None? && pages != [] {
      match UpdateStep(c, remote, local, mtimes, pages[0])
      case Err(f) =>
      case Ok(o) =>
        var next := r.(ops := r.ops + o);
        UpdateEachComplete(next, c, remote, local, mtimes, pages[1..]);
        var rest := Wanted(c, remote, local, mtimes, pages[1..]);
        assert Wanted(c, remote, local, mtimes, pages) == o + rest;
        Reassociate(r.ops, o, rest);
        assert (forall i :: 0 <= i < |pages| ==> Resolvable(c, mtimes, pages[i]))
          <==> (forall i :: 0 <= i < |pages[1..]| ==> Resolvable(c, mtimes, pages[1..][i])) by {
          assert forall i :: 1 <= i < |pages| ==> pages[i] == pages[1..][i - 1];
        }
    }
  }

  /** Neither flag: update_remote changes nothing, whatever the times. */
  lemma UpdateWithoutFlags(r: Run, c: BookstackClient, mtimes: map<string, int>, pages: seq<Page>)
    ensures UpdateEach(r, c, false, false, mtimes, pages).ops == r.ops
  {
    UpdateEachJustified(r, c, false, false, mtimes, pages);
  }

  // ---------------------------------------------------------------------------
  // sync_remote and sync_local

  /** sync_remote: create shelves and books, refresh the client and then the local
      side, re-associate the created books with their shelves, refresh the client,
      create chapters and pages, refresh the client. */
  function SyncRemotePlan(created: set<Book>): (p: seq<Op>)
    ensures |p| == 9 && p[0] == CreatedRemoteMissing(ShelfItem) && p[|p| - 1] == RefreshedClient
  {
    [CreatedRemoteMissing(ShelfItem)] + [CreatedRemoteMissing(BookItem)] + [RefreshedClient]
    + [RefreshedLocal, UpdatedShelfBooks(created)]
    + [RefreshedClient, CreatedRemoteMissing(ChapterItem), CreatedRemoteMissing(PageItem)]
    + [RefreshedClient]
  }

  /** Helper: the plan as one flat list, so that its positions can be read off. */
  lemma SyncRemoteSteps(created: set<Book>)
    ensures SyncRemotePlan(created) ==
      [ CreatedRemoteMissing(ShelfItem), CreatedRemoteMissing(BookItem), RefreshedClient,
        RefreshedLocal, UpdatedShelfBooks(created), RefreshedClient,
        CreatedRemoteMissing(ChapterItem), CreatedRemoteMissing(PageItem), RefreshedClient ]
  {
  }

  /** A client refresh lies strictly between positions `i` and `j`. */
  predicate ClientRefreshBetween(ops: seq<Op>, i: int, j: int) {
    exists k :: i < k < j && 0 <= k < |ops| && ops[k] == RefreshedClient
  }

  /** Creation in `ops` runs top-down: never a deeper level before a shallower one. */
  predicate TopDown(ops: seq<Op>) {
    forall i, j :: 0 <= i < j < |ops| && ops[i].CreatedRemoteMissing? && ops[j].CreatedRemoteMissing? ==>
      Depth(ops[i].kind) <= Depth(ops[j].kind)
  }

  /** The remote creation of shelves or books. */
  predicate ShallowCreate(op: Op) {
    op.CreatedRemoteMissing? && (op.kind == ShelfItem || op.kind == BookItem)
  }

  /** The remote creation of chapters or pages. */
  predicate DeepCreate(op: Op) {
    op.CreatedRemoteMissing? && (op.kind == ChapterItem || op.kind == PageItem)
  }

  /** sync_remote creates top-down and ends with a refresh of the client that covers
      the new chapters and pages. */
  lemma SyncRemoteTopDown(created: set<Book>)
    ensures TopDown(SyncRemotePlan(created))
    ensures SyncRemotePlan(created)[|SyncRemotePlan(created)| - 1] == RefreshedClient
  {
    SyncRemoteSteps(created);
  }

  /** Chapters and pages are created only after a client refresh that follows the
      creation of shelves and books, so the new book ids are known. */
  lemma SyncRemoteRefreshesBeforeDeep(created: set<Book>)
    ensures var p := SyncRemotePlan(created);
      forall i, j :: 0 <= i < |p| && 0 <= j < |p| && ShallowCreate(p[i]) && DeepCreate(p[j]) ==>
        i < j && ClientRefreshBetween(p, i, j)
  {
    SyncRemoteSteps(created);
    var p := SyncRemotePlan(created);
    forall i, j | 0 <= i < |p| && 0 <= j < |p| && ShallowCreate(p[i]) && DeepCreate(p[j])
      ensures i < j && ClientRefreshBetween(p, i, j)
    {
      assert p[5] == RefreshedClient;
    }
  }

  /** The created books are re-associated with their shelves only after both the client
      and the local side were refreshed, and it is exactly the created set that goes. */
  lemma SyncRemoteRebindsAfterRefresh(created: set<Book>)
    ensures var p := SyncRemotePlan(created);
      forall i, j :: 0 <= i < |p| && 0 <= j < |p| && ShallowCreate(p[i]) && p[j].UpdatedShelfBooks? ==>
        i < j && ClientRefreshBetween(p, i, j) && exists k :: i < k < j && p[k] == RefreshedLocal
    ensures var p := SyncRemotePlan(created);
      forall i :: 0 <= i < |p| && p[i].UpdatedShelfBooks? ==> p[i].books == created
  {
    SyncRemoteSteps(created);
    var p := SyncRemotePlan(created);
    forall i, j | 0 <= i < |p| && 0 <= j < |p| && ShallowCreate(p[i]) && p[j].UpdatedShelfBooks?
      ensures i < j && ClientRefreshBetween(p, i, j) && exists k :: i < k < j && p[k] == RefreshedLocal
    {
      assert p[2] == RefreshedClient && p[3] == RefreshedLocal;
    }
  }

  /** How many times `op` occurs in `ops`. */
  function Occurrences(ops: seq<Op>, op: Op): (n: nat)
    ensures n <= |ops|
    ensures n == 0 <==> op !in ops
  {
    if ops == [] then 0 else (if ops[0] == op then 1 else 0) + Occurrences(ops[1..], op)
  }

  lemma {:induction false} OccurrencesAppend(a: seq<Op>, b: seq<Op>, op: Op)
    ensures Occurrences(a + b, op) == Occurrences(a, op) + Occurrences(b, op)
  {
    if a != [] {
      assert (a + b)[0] == a[0] && (a + b)[1..] == a[1..] + b;
      OccurrencesAppend(a[1..], b, op);
    } else {
      assert a + b == b;
    }
  }

  /** The creation at `i` is followed by a client refresh, with only creations between. */
  predicate RefreshFollows(ops: seq<Op>, i: int) {
    exists k :: 0 <= i < k < |ops| && ops[k] == RefreshedClient && (forall j :: i < j < k ==> ops[j].CreatedRemoteMissing?)
  }

  /** sync_remote refreshes the client exactly three times. */
  lemma SyncRemoteRefreshCount(created: set<Book>)
    ensures Occurrences(SyncRemotePlan(created), RefreshedClient) == 3
  {
    var a := [CreatedRemoteMissing(ShelfItem), CreatedRemoteMissing(BookItem), RefreshedClient];
    var b := [RefreshedLocal, UpdatedShelfBooks(created), RefreshedClient];
    var c := [CreatedRemoteMissing(ChapterItem), CreatedRemoteMissing(PageItem), RefreshedClient];
    assert SyncRemotePlan(created) == a + b + c;
    assert Occurrences(a, RefreshedClient) == 1 by {
      assert a[1..][1..] == [RefreshedClient];
    }
    assert Occurrences(b, RefreshedClient) == 1 by {
      assert b[1..][1..] == [RefreshedClient];
    }
    assert Occurrences(c, RefreshedClient) == 1 by {
      assert c[1..][1..] == [RefreshedClient];
    }
    OccurrencesAppend(a, b, RefreshedClient);
    OccurrencesAppend(a + b, c, RefreshedClient);
  }

  /** Each creation phase of sync_remote (shelves and books, then chapters and pages) is
      followed by a client refresh before anything else of the plan looks the new items
      up. */
  lemma SyncRemoteRefreshFollows(created: set<Book>)
    ensures var p := SyncRemotePlan(created);
      forall i :: 0 <= i < |p| && p[i].CreatedRemoteMissing? ==> RefreshFollows(p, i)
  {
    var p := SyncRemotePlan(created);
    SyncRemoteSteps(created);
    forall i | 0 <= i < |p| && p[i].CreatedRemoteMissing?
      ensures RefreshFollows(p, i)
    {
      var k := if i < 2 then 2 else 8;
      assert p[k] == RefreshedClient;
    }
  }

  /** sync_local: create the missing local shelves, books, chapters, pages, in that order. */
  function SyncLocalPlan(): (p: seq<Op>)
    ensures |p| == 4
    ensures forall i :: 0 <= i < |p| ==> p[i].CreatedLocalMissing? && Depth(p[i].kind) == i
  {
    [CreatedLocalMissing(ShelfItem), CreatedLocalMissing(BookItem),
     CreatedLocalMissing(ChapterItem), CreatedLocalMissing(PageItem)]
  }

  /** sync_local creates every level once, top-down. */
  lemma SyncLocalTopDown()
    ensures forall i, j :: 0 <= i < j < |SyncLocalPlan()| ==>
      Depth(SyncLocalPlan()[i].kind) < Depth(SyncLocalPlan()[j].kind)
    ensures forall k: ItemKind :: CreatedLocalMissing(k) in SyncLocalPlan()
  {
    forall k: ItemKind
      ensures CreatedLocalMissing(k) in SyncLocalPlan()
    {
      assert SyncLocalPlan()[Depth(k)] == CreatedLocalMissing(k);
    }
  }
}
