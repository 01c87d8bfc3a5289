/** Bookstack: the local vault client. It owns the remote client, the local entity
    lists, and, in this model, the vault's files and the trace of external calls. */
module Local {
  import opened Base
  import opened Paths
  import opened Artifacts
  import opened Identity
  import opened DeleteTargets
  import opened Remote
  import opened Effects
  import opened Plans

  class Bookstack {
    const path: string
    const excluded: seq<string>
    const client: BookstackClient
    var shelves: seq<Shelf>
    var books: seq<Book>
    var chapters: seq<Chapter>
    var pages: seq<Page>
    var missingBooks: set<Book>
    var disk: Disk
    var ops: seq<Op>

    /** Bookstack(path, excluded, verbose): build the remote client, then collect the
        local artifacts; `remote` and `local` are what the collectors return. */
    constructor (path: string, excluded: seq<string>, conHash: string -> Digest,
                 remote: Snapshot, local: Snapshot, disk: Disk)
      ensures this.path == path && this.excluded == excluded && this.disk == disk
      ensures client.conHash == conHash && client.Valid()
      ensures client.shelves == remote.shelves && client.books == remote.books
      ensures client.pages == remote.pages && client.chapters == remote.chapters
      ensures shelves == local.shelves && books == local.books
      ensures chapters == local.chapters && pages == local.pages
      ensures missingBooks == {} && ops == []
    {
      client := new BookstackClient(conHash, remote);
      this.path := path;
      this.excluded := excluded;
      shelves := local.shelves;
      books := local.books;
      chapters := local.chapters;
      pages := local.pages;
      missingBooks := {};
      this.disk := disk;
      ops := [];
    }

    /** _refresh: collect the local artifacts again. */
    method Refresh(local: Snapshot)
      modifies this`shelves, this`books, this`chapters, this`pages
      ensures shelves == local.shelves && books == local.books
      ensures chapters == local.chapters && pages == local.pages
    {
      shelves := local.shelves;
      books := local.books;
      chapters := local.chapters;
      pages := local.pages;
    }

    /** _build_object_for_delete: a lookup-only object from the path parts. */
    method BuildObjectForDelete(kind: ItemKind, parts: seq<string>) returns (r: Result<Artifact>)
      ensures r.Err? <==> TargetOf(kind, parts).Err?
      ensures r.Err? ==> r.fault == IndexError
      ensures r.Ok? ==> Realises(r.value, TargetOf(kind, parts).value)
    {
      if |parts| < 1 {
        return Err(IndexError);
      }
      var shelf := new Shelf(parts[0], true, "", NoDetails, []);
      if kind == ShelfItem {
        return Ok(ShelfObj(shelf));
      }
      if |parts| < 2 {
        return Err(IndexError);
      }
      var book := new Book(parts[1], shelf, [], "", NoDetails, true, []);
      if kind == BookItem {
        return Ok(BookObj(book));
      }
      if kind == ChapterItem {
        if |parts| < 3 {
          return Err(IndexError);
        }
        var chapter := new Chapter(parts[2], null, book, "", NoDetails, true, []);
        return Ok(ChapterObj(chapter));
      }
      if |parts| == 4 {
        var chapter := new Chapter(parts[2], null, book, "", NoDetails, true, []);
        var page := new Page(parts[3], "", "", null, book, chapter, NoDetails);
        return Ok(PageObj(page));
      }
      if |parts| < 3 {
        return Err(IndexError);
      }
      var page := new Page(parts[2], "", "", null, book, null, NoDetails);
      return Ok(PageObj(page));
    }

    /** The local removal of one entity: os.remove for a page that exists, rmtree for
        any other level that is a directory. */
    method RemoveEntity(kind: ItemKind, p: string) returns (fault: Option<Fault>)
      modifies this`disk, this`ops
      ensures var r := RemoveLocal(old(disk), kind, p);
        if r.Err? then fault == Some(r.fault) && disk == old(disk) && ops == old(ops)
        else fault == None && disk == r.value.0 && ops == old(ops) + r.value.1
    {
      fault := None;
      if kind == PageItem {
        if p in disk.files || p in disk.dirs {
          if p !in disk.files {
            return Some(IsADirectoryError);
          }
          disk := disk.(files := disk.files - {p});
          ops := ops + [RemovedLocal(kind, p)];
        }
      } else if p in disk.dirs {
        disk := RemoveTree(disk, p);
        ops := ops + [RemovedLocal(kind, p)];
      }
    }

    /** delete(kind, item_path): the local half, then the remote lookup and DELETE. */
    method Delete(kind: ItemKind, itemPath: string) returns (outcome: DeleteOutcome)
      modifies this`disk, this`ops
      ensures var e := DeleteEffect(old(disk), path, client, kind, itemPath);
        disk == e.0 && ops == old(ops) + e.1 && outcome == e.2
    {
      var parts := Split(itemPath);
      ghost var ops0 := ops;
      var fault := RemoveEntity(kind, LocalDeletePath(path, kind, parts));
      if fault.Some? {
        return Raised(fault.value);
      }
      ghost var ops1 := ops;
      outcome := DeleteRemotely(kind, parts);
      DeleteEffectSplit(old(disk), path, client, kind, itemPath, ops0, ops1[|ops0|..], ops[|ops1|..]);
    }

    /** The remote half of delete: rebuild the lookup object, find its remote
        counterpart and send the DELETE with that entity's id. */
    method DeleteRemotely(kind: ItemKind, parts: seq<string>) returns (outcome: DeleteOutcome)
      modifies this`ops
      ensures var h := DeleteRemoteHalf(client, kind, parts);
        ops == old(ops) + h.0 && outcome == h.1
    {
      var lookup := BuildObjectForDelete(kind, parts);
      if lookup.Err? {
        return Raised(lookup.fault);
      }
      RealisedLookup(lookup.value, TargetOf(kind, parts).value);
      // The rebuilt object always has its parents, so only a KeyError can come back.
      var clientObj := client.Retrieve(lookup.value);
      if clientObj.Err? {
        return NotFoundRemotely;
      }
      match clientObj.value.Details().id
      case None =>
        return Raised(KeyError);
      case Some(id) =>
        ops := ops + [DeletedRemote(kind, id)];
        return DeletedRemotely(id);
    }

    /** The loop of purge_local for one level. */
    method RemoveEachPath(kind: ItemKind, paths: seq<string>) returns (fault: Option<Fault>)
      modifies this`disk, this`ops
      ensures Run(disk, ops, fault) == RemoveEach(Run(old(disk), old(ops), None), kind, paths)
    {
      ghost var goal := RemoveEach(Run(disk, ops, None), kind, paths);
      for n := 0 to |paths|
        invariant RemoveEach(Run(disk, ops, None), kind, paths[n..]) == goal
      {
        assert paths[n..][1..] == paths[n + 1..];
        fault := RemoveEntity(kind, paths[n]);
        if fault.Some? {
          return;
        }
      }
      fault := None;
    }

    /** purge_local: remove the local pages, chapters, books and shelves that the
        collectors report missing remotely, most nested first. */
    method PurgeLocal(missing: ItemKind -> seq<Artifact>) returns (fault: Option<Fault>)
      modifies this`disk, this`ops
      ensures Run(disk, ops, fault) == PurgeLocalRun(Run(old(disk), old(ops), None), missing)
    {
      fault := RemoveEachPath(PageItem, LocalPaths(missing(PageItem)));
      if fault.Some? {
        RemoveEachTrace(Run(disk, ops, fault), ChapterItem, LocalPaths(missing(ChapterItem)));
        RemoveEachTrace(Run(disk, ops, fault), BookItem, LocalPaths(missing(BookItem)));
        RemoveEachTrace(Run(disk, ops, fault), ShelfItem, LocalPaths(missing(ShelfItem)));
        return;
      }
      fault := RemoveEachPath(ChapterItem, LocalPaths(missing(ChapterItem)));
      if fault.Some? {
        RemoveEachTrace(Run(disk, ops, fault), BookItem, LocalPaths(missing(BookItem)));
        RemoveEachTrace(Run(disk, ops, fault), ShelfItem, LocalPaths(missing(ShelfItem)));
        return;
      }
      fault := RemoveEachPath(BookItem, LocalPaths(missing(BookItem)));
      if fault.Some? {
        RemoveEachTrace(Run(disk, ops, fault), ShelfItem, LocalPaths(missing(ShelfItem)));
        return;
      }
      fault := RemoveEachPath(ShelfItem, LocalPaths(missing(ShelfItem)));
    }

    /** The inner loop of purge_remote for one level. */
    method DeleteEachPath(kind: ItemKind, paths: seq<string>) returns (fault: Option<Fault>)
      modifies this`disk, this`ops
      ensures Run(disk, ops, fault) == DeleteEach(Run(old(disk), old(ops), None), path, client, kind, paths)
    {
      ghost var goal := DeleteEach(Run(disk, ops, None), path, client, kind, paths);
      for n := 0 to |paths|
        invariant DeleteEach(Run(disk, ops, None), path, client, kind, paths[n..]) == goal
      {
        assert paths[n..][1..] == paths[n + 1..];
        var outcome := Delete(kind, paths[n]);
        if outcome.Raised? {
          return Some(outcome.fault);
        }
      }
      fault := None;
    }

    /** purge_remote: for pages, chapters, books and shelves in that order, delete every
        item the collector reports missing locally, by its full path string. */
    method PurgeRemote(missing: ItemKind -> seq<Artifact>) returns (fault: Option<Fault>)
      modifies this`disk, this`ops
      ensures Run(disk, ops, fault) == PurgeRemoteRun(Run(old(disk), old(ops), None), path, client, missing, PurgeOrder)
    {
      var levels := PurgeOrder;
      ghost var goal := PurgeRemoteRun(Run(disk, ops, None), path, client, missing, levels);
      for n := 0 to |levels|
        invariant PurgeRemoteRun(Run(disk, ops, None), path, client, missing, levels[n..]) == goal
      {
        assert levels[n..][1..] == levels[n + 1..];
        fault := DeleteEachPath(levels[n], FullPaths(missing(levels[n])));
        if fault.Some? {
          return;
        }
      }
      fault := None;
    }

    /** update_remote(remote, local): for every local page, compare its modification
        time with the remote page's updated_at; push or pull when one is newer by more
        than five seconds. `mtimes` is os.stat's st_mtime of every existing file. */
    method UpdateRemote(remote: bool, local: bool, mtimes: map<string, int>) returns (fault: Option<Fault>)
      modifies this`ops
      ensures Run(disk, ops, fault) == UpdateEach(Run(old(disk), old(ops), None), client, remote, local, mtimes, pages)
    {
      var ps := pages;
      ghost var goal := UpdateEach(Run(disk, ops, None), client, remote, local, mtimes, ps);
      for n := 0 to |ps|
        invariant UpdateEach(Run(disk, ops, None), client, remote, local, mtimes, ps[n..]) == goal
      {
        assert ps[n..][1..] == ps[n + 1..];
        var page := ps[n];
        if page.path !in mtimes {
          return Some(FileNotFoundError);
        }
        var updatedAt := mtimes[page.path];
        var clientPage := client.Retrieve(PageObj(page));
        if clientPage.Err? {
          return Some(clientPage.fault);
        }
        var obj := clientPage.value;
        if obj.Details().updatedAt.None? {
          return Some(KeyError);
        }
        var clientUpdated := obj.Details().updatedAt.value;
        var step: seq<Op> := [];
        if remote {
          if updatedAt > clientUpdated && updatedAt - clientUpdated > Tolerance {
            step := [PushedContent(page, obj.page)];
          }
        } else if local {
          if updatedAt < clientUpdated && clientUpdated - updatedAt > Tolerance {
            step := [PulledContent(page, obj.page)];
          }
        }
        assert UpdateStep(client, remote, local, mtimes, page) == Ok(step);
        ops := ops + step;
      }
      fault := None;
    }

    /** sync_remote: the creation steps with their refresh barriers. The snapshots are
        what the collectors return at each refresh; `created` is the set of books
        _create_remote_missing_books reports. */
    method SyncRemote(created: set<Book>, afterBooks: Snapshot, local: Snapshot,
                      afterShelfBooks: Snapshot, afterPages: Snapshot)
      modifies this`ops, this`missingBooks, this`shelves, this`books, this`chapters, this`pages, client
      ensures ops == old(ops) + SyncRemotePlan(created)
      ensures missingBooks == created
      ensures shelves == local.shelves && books == local.books
      ensures chapters == local.chapters && pages == local.pages
      ensures client.Valid()
      ensures client.shelves == afterPages.shelves && client.books == afterPages.books
      ensures client.pages == afterPages.pages && client.chapters == afterPages.chapters
    {
      var trace := [CreatedRemoteMissing(ShelfItem)];
      missingBooks := created;
      trace := trace + [CreatedRemoteMissing(BookItem)];
      client.Refresh(afterBooks);
      trace := trace + [RefreshedClient];
      Refresh(local);
      trace := trace + [RefreshedLocal, UpdatedShelfBooks(missingBooks)];
      client.Refresh(afterShelfBooks);
      trace := trace + [RefreshedClient, CreatedRemoteMissing(ChapterItem), CreatedRemoteMissing(PageItem)];
      client.Refresh(afterPages);
      trace := trace + [RefreshedClient];
      ops := ops + trace;
    }

    /** sync_local: create the missing local shelves, books, chapters and pages. */
    method SyncLocal()
      modifies this`ops
      ensures ops == old(ops) + SyncLocalPlan()
    {
      ops := ops + [CreatedLocalMissing(ShelfItem)];
      ops := ops + [CreatedLocalMissing(BookItem)];
      ops := ops + [CreatedLocalMissing(ChapterItem)];
      ops := ops + [CreatedLocalMissing(PageItem)];
    }
  }
}
