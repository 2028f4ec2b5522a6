/** The metadata store and the server, as objects over the two tables. Each method is proved
    to do what module Store computes when no other request comes in between. */
module Server {
  import opened Paths
  import opened Store
  import opened DeadProps

  class MetadataStore {
    var entryTable: map<Id, Entry>
    var reference: Reference

    function Now(): State
      reads this
    {
      State(entryTable, reference)
    }

    /** Init, on empty tables. */
    constructor (rootId: Id, now: int)
      ensures Now() == Initial(rootId, now)
    {
      entryTable := map[rootId := Entry(rootId, ROOT_PARENT, ROOT_NAME, Dir, 0, now, map[], 1)];
      reference := Reference(map[[] := rootId], 1);
    }

    method GetEntry(id: Id) returns (r: Result<Entry>)
      ensures r == Store.GetEntry(Now(), id)
    {
      if id !in entryTable {
        return Err(ErrNoSuchEntry);
      }
      return Ok(entryTable[id]);
    }

    /** The query by parent id, in whatever order. */
    method GetEntriesByParentID(id: Id) returns (entries: seq<Entry>)
      requires forall k | k in entryTable :: entryTable[k].id == k
      ensures forall e :: e in entries <==> e.id in entryTable && entryTable[e.id] == e && e.parentId == id
      ensures forall i, j | 0 <= i < j < |entries| :: entries[i].id != entries[j].id
    {
      entries := [];
      var rest := entryTable.Keys;
      while rest != {}
        invariant rest <= entryTable.Keys
        invariant forall e :: e in entries <==> e.id in entryTable - rest && entryTable[e.id] == e && e.parentId == id
        invariant forall i, j | 0 <= i < j < |entries| :: entries[i].id != entries[j].id
        decreases rest
      {
        var k :| k in rest;
        rest := rest - {k};
        if entryTable[k].parentId == id {
          entries := entries + [entryTable[k]];
        }
      }
    }

    method AddEntry(entry: Entry, path: Path) returns (r: Result<()>)
      modifies this
      ensures var c := CommitAdd(old(Now()), old(reference), entry, path);
              c == Ok(Now()) && r == Ok(())
    {
      var ref := reference;
      ref := ref.(entries := ref.entries[path := entry.id]);
      if reference.version != ref.version {
        return Err(ErrConflict);
      }
      entryTable := entryTable[entry.id := entry];
      reference := Reference(ref.entries, reference.version + 1);
      return Ok(());
    }

    method UpdateEntry(entry: Entry) returns (r: Result<()>)
      modifies this
      ensures match CommitUpdate(old(Now()), entry)
              case Ok(st) => Now() == st && r == Ok(())
              case Err(e) => Now() == old(Now()) && r == Err(e)
    {
      if entry.id !in entryTable || entryTable[entry.id].version != entry.version {
        return Err(ErrConflict);
      }
      var item := entryTable[entry.id];
      item := item.(size := entry.size, modified := entry.modified, deadProps := entry.deadProps);
      item := item.(version := item.version + 1);
      entryTable := entryTable[entry.id := item];
      return Ok(());
    }

    method UpdateEntryName(entry: Entry, ref: Reference) returns (r: Result<()>)
      modifies this
      ensures match CommitRename(old(Now()), entry, ref)
              case Ok(st) => Now() == st && r == Ok(())
              case Err(e) => Now() == old(Now()) && r == Err(e)
    {
      if entry.id !in entryTable || entryTable[entry.id].version != entry.version || reference.version != ref.version {
        return Err(ErrConflict);
      }
      var item := entryTable[entry.id];
      item := item.(name := entry.name, parentId := entry.parentId, version := item.version + 1);
      entryTable := entryTable[entry.id := item];
      reference := Reference(ref.entries, reference.version + 1);
      return Ok(());
    }

    method DeleteEntries(ids: seq<Id>, ref: Reference) returns (r: Result<()>)
      modifies this
      ensures match CommitDelete(old(Now()), ids, ref)
              case Ok(st) => Now() == st && r == Ok(())
              case Err(e) => Now() == old(Now()) && r == Err(e)
    {
      if reference.version != ref.version {
        return Err(ErrConflict);
      }
      var i := 0;
      while i < |ids|
        invariant 0 <= i <= |ids| && reference == old(reference)
        invariant entryTable == old(entryTable) - set id | id in ids[..i]
      {
        entryTable := entryTable - {ids[i]};
        assert ids[..i + 1] == ids[..i] + [ids[i]];
        i := i + 1;
      }
      assert ids[..i] == ids;
      reference := Reference(ref.entries, reference.version + 1);
      return Ok(());
    }
  }

  ghost predicate Becomes(was: State, now: State, r: Result<()>, spec: Result<State>) {
    match spec
    case Ok(st) => now == st && r == Ok(())
    case Err(e) => now == was && r == Err(e)
  }

  /** What a listing tells of an entry. */
  datatype FileInfo = FileInfo(name: string, size: nat, modified: int, isDir: bool)

  function InfoOf(e: Entry): FileInfo {
    FileInfo(e.name, e.size, e.modified, e.kind.Dir?)
  }

  lemma InfosOfEntries(table: map<Id, Entry>, id: Id, infos: seq<FileInfo>, entries: seq<Entry>)
    requires forall k | k in table :: table[k].id == k
    requires |infos| == |entries| && forall i | 0 <= i < |infos| :: infos[i] == InfoOf(entries[i])
    requires forall e :: e in entries <==> e.id in table && table[e.id] == e && e.parentId == id
    ensures forall x :: x in infos <==> exists k :: k in table && table[k].parentId == id && InfoOf(table[k]) == x
  {
    forall x | x in infos ensures exists k :: k in table && table[k].parentId == id && InfoOf(table[k]) == x {
      var i :| 0 <= i < |infos| && infos[i] == x;
      assert entries[i] in entries;
      assert table[entries[i].id].parentId == id && InfoOf(table[entries[i].id]) == x;
    }
    forall k | k in table && table[k].parentId == id ensures InfoOf(table[k]) in infos {
      assert table[k] in entries;
    }
  }

  /** An open file: its entry as read, and the object that holds its contents ("" for a directory).
      Patch edits the map of dead properties in the entry. */
  class FileReader {
    var entry: Entry
    const contents: Id

    constructor (entry: Entry, contents: Id)
      ensures this.entry == entry && this.contents == contents
    {
      this.entry, this.contents := entry, contents;
    }
  }

  class Server {
    const store: MetadataStore

    constructor (s: MetadataStore)
      ensures store == s
    {
      store := s;
    }

    /** `id` is the new uuid. */
    method Mkdir(name: string, id: Id, now: int) returns (r: Result<()>)
      modifies store
      ensures Becomes(old(store.Now()), store.Now(), r, Store.Mkdir(old(store.Now()), SlashClean(name), id, now))
    {
      var path := SlashClean(name);
      if path == [] {
        return Err(ErrExist);
      }
      var ref := store.reference;
      if path in ref.entries {
        return Err(ErrExist);
      }
      if Parent(path) !in ref.entries {
        return Err(ErrNotExist);
      }
      var entry := NewEntry(id, ref.entries[Parent(path)], path, Dir, 0, now);
      r := store.AddEntry(entry, path);
    }

    /** The object has been written under `id`, or under the id of the entry that is there;
        `size` is what the sizing reader counted. */
    method Create(name: string, id: Id, size: nat, now: int) returns (r: Result<()>)
      modifies store
      ensures Becomes(old(store.Now()), store.Now(), r, Store.Create(old(store.Now()), SlashClean(name), id, size, now))
    {
      var path := SlashClean(name);
      var ref := store.reference;
      if path in ref.entries {
        var e := store.GetEntry(ref.entries[path]);
        if e.Err? {
          return Err(e.error);
        }
        var entry := e.value.(size := size, modified := now);
        r := store.UpdateEntry(entry);
      } else {
        if path == [] || Parent(path) !in ref.entries {
          return Err(ErrNotExist);
        }
        var entry := NewEntry(id, ref.entries[Parent(path)], path, File, size, now);
        r := store.AddEntry(entry, path);
      }
    }

    /** `order` lists the keys as the iteration over the map produces them. */
    method RemoveAll(name: string, order: seq<Path>) returns (r: Result<()>, ghost ids: seq<Id>)
      requires forall k | k in store.reference.entries :: k in order
      modifies store
      ensures r.Ok? ==> RemovedIds(old(store.reference.entries), SlashClean(name), ids)
      ensures Becomes(old(store.Now()), store.Now(), r, Store.RemoveAll(old(store.Now()), SlashClean(name), ids))
    {
      var path := SlashClean(name);
      var ref := store.reference;
      ghost var idx := ref.entries;
      if path == [] {
        return Err(ErrInvalid), [];
      }
      if path !in ref.entries {
        return Err(ErrNotExist), [];
      }
      var found: seq<Id> := [];
      var i := 0;
      while i < |order|
        invariant 0 <= i <= |order| && ref == store.reference.(entries := ref.entries)
        invariant store.Now() == old(store.Now())
        invariant forall p :: p in ref.entries <==> p in idx && !(Within(p, path) && p in order[..i])
        invariant forall p | p in ref.entries :: ref.entries[p] == idx[p]
        invariant forall id :: id in found <==> exists p | p in idx && Within(p, path) && p in order[..i] :: idx[p] == id
      {
        var k := order[i];
        assert order[..i + 1] == order[..i] + [k];
        if k in ref.entries && (k == path || Below(k, path)) {
          found := found + [ref.entries[k]];
          ref := ref.(entries := ref.entries - {k});
        }
        i := i + 1;
      }
      assert order[..i] == order;
      assert ref.entries == Pruned(idx, path);
      ids := found;
      r := store.DeleteEntries(found, ref);
    }

    method Rename(oldName: string, newName: string, order: seq<Path>) returns (r: Result<()>)
      modifies store
      ensures Becomes(old(store.Now()), store.Now(), r, Store.Rename(old(store.Now()), SlashClean(oldName), SlashClean(newName), order))
    {
      var from, to := SlashClean(oldName), SlashClean(newName);
      if from == [] || to == [] {
        return Err(ErrInvalid);
      }
      var ref := store.reference;
      if from !in ref.entries || Parent(to) !in ref.entries {
        return Err(ErrNotExist);
      }
      var id, parentId := ref.entries[from], ref.entries[Parent(to)];
      var e := store.GetEntry(id);
      if e.Err? {
        return Err(e.error);
      }
      var entry := e.value.(name := Last(to), parentId := parentId);
      var entries := ref.entries[to := id];
      entries := entries - {from};
      if entry.kind == Dir {
        ghost var base := entries;
        var i := 0;
        while i < |order|
          invariant 0 <= i <= |order| && store.Now() == old(store.Now())
          invariant MoveKeys(base, order, from, to) == MoveKeys(entries, order[i..], from, to)
        {
          var k := order[i];
          assert order[i..][1..] == order[i + 1..];
          if k in entries && Below(k, from) {
            var v := entries[k];
            entries := entries - {k};
            entries := entries[Rebase(k, from, to) := v];
          }
          i := i + 1;
        }
      }
      ref := ref.(entries := entries);
      r := store.UpdateEntryName(entry, ref);
    }

    method Stat(name: string) returns (r: Result<Entry>)
      ensures var path, st := SlashClean(name), store.Now();
              r == if path in st.ref.entries then Store.GetEntry(st, st.ref.entries[path]) else Err(ErrNotExist)
    {
      var path := SlashClean(name);
      var ref := store.reference;
      if path !in ref.entries {
        return Err(ErrNotExist);
      }
      r := store.GetEntry(ref.entries[path]);
    }

    /** OpenFile: the entry, and for a file the id of the object whose contents are fetched. */
    method OpenFile(name: string) returns (r: Result<FileReader>)
      ensures var path, st := SlashClean(name), store.Now();
              if path !in st.ref.entries then r == Err(ErrNotExist)
              else
                var entry := Store.GetEntry(st, st.ref.entries[path]);
                if entry.Err? then r == Err(entry.error)
                else r.Ok? && fresh(r.value) && r.value.entry == entry.value
                     && r.value.contents == if entry.value.kind.Dir? then "" else st.ref.entries[path]
    {
      var path := SlashClean(name);
      var ref := store.reference;
      if path !in ref.entries {
        return Err(ErrNotExist);
      }
      var id := ref.entries[path];
      var e := store.GetEntry(id);
      if e.Err? {
        return Err(e.error);
      }
      var f := new FileReader(e.value, if e.value.kind == Dir then "" else id);
      r := Ok(f);
    }

    /** Readdir of an opened directory: what its entries are like that have it as their parent. */
    method Readdir(entry: Entry) returns (infos: seq<FileInfo>, ghost entries: seq<Entry>)
      requires forall k | k in store.entryTable :: store.entryTable[k].id == k
      ensures forall x :: x in infos <==>
        entry.kind.Dir? && exists k :: k in store.entryTable && store.entryTable[k].parentId == entry.id && InfoOf(store.entryTable[k]) == x
      ensures |infos| == |entries| && forall i | 0 <= i < |infos| :: infos[i] == InfoOf(entries[i])
      ensures forall e :: e in entries <==>
        entry.kind.Dir? && e.id in store.entryTable && store.entryTable[e.id] == e && e.parentId == entry.id
      ensures forall i, j | 0 <= i < j < |entries| :: entries[i].id != entries[j].id
    {
      infos, entries := [], [];
      if entry.kind == Dir {
        var listed := store.GetEntriesByParentID(entry.id);
        for i := 0 to |listed|
          invariant |infos| == i && forall j | 0 <= j < i :: infos[j] == InfoOf(listed[j])
        {
          infos := infos + [InfoOf(listed[i])];
        }
        entries := listed;
        InfosOfEntries(store.entryTable, entry.id, infos, entries);
      }
    }

    /** Patch on an opened file: its map of properties is edited, and committed if the entry still
        has the version that was opened. What has been edited stays so when an edit or the commit
        fails. `done` lists the properties in the order of the loops. */
    method Patch(f: FileReader, patches: seq<Proppatch>, marshal: Marshal) returns (r: Result<()>, done: seq<PropName>)
      modifies store, f
      ensures var (props, ok) := Patched(old(f.entry).deadProps, EditsOf(patches), marshal);
              && f.entry == old(f.entry).(deadProps := props)
              && if ok then Becomes(old(store.Now()), store.Now(), r, CommitUpdate(old(store.Now()), f.entry))
                 else r == Err(ErrMarshal) && store.Now() == old(store.Now())
      ensures r.Ok? ==> NamesOf(done, EditsOf(patches))
    {
      var props, ok;
      props, ok, done := EditProps(f.entry.deadProps, patches, marshal);
      f.entry := f.entry.(deadProps := props);
      if !ok {
        r := Err(ErrMarshal);
        return;
      }
      r := store.UpdateEntry(f.entry);
    }
  }

  /** A second Patch on the same open file, after one that failed in an edit, commits the edits of
      both that were made. */
  lemma FailedEditsAreCommitted(st: State, e: Entry, first: seq<Edit>, second: seq<Edit>, marshal: Marshal)
    requires Patched(Patched(e.deadProps, first, marshal).0, second, marshal).1
    requires e.id in st.table && st.table[e.id].version == e.version
    ensures var made := first[..Made(first, marshal)];
            var e' := e.(deadProps := Patched(Patched(e.deadProps, first, marshal).0, second, marshal).0);
            && CommitUpdate(st, e').Ok?
            && CommitUpdate(st, e').value.table[e.id].deadProps == Patched(e.deadProps, made + second, marshal).0
  {
    MadeIsPatched(e.deadProps, first, marshal);
    PatchedAppend(e.deadProps, first[..Made(first, marshal)], second, marshal);
  }

  /** A second one after one that was committed is refused: the file keeps the version it was
      opened with. */
  lemma SecondPatchIsRefused(st: State, e: Entry, props: Props, props': Props)
    requires CommitUpdate(st, e.(deadProps := props)).Ok?
    ensures CommitUpdate(CommitUpdate(st, e.(deadProps := props)).value, e.(deadProps := props')) == Err(ErrConflict)
  {
  }
}
