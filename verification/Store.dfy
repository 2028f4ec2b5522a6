/** The two tables behind the file system, and the conditional transactions on them. The
    reference item holds the path index; the entry table holds the tree. Each function of a
    server is given as what it computes from what it has read, and as a whole when nothing
    comes in between. */
module Store {
  import opened Paths

  type Id = string

  datatype Kind = File | Dir

  datatype Entry = Entry(id: Id, parentId: Id, name: string, kind: Kind, size: nat, modified: int, deadProps: map<string, string>, version: nat)

  type Index = map<Path, Id>

  datatype Reference = Reference(entries: Index, version: nat)

  datatype State = State(table: map<Id, Entry>, ref: Reference)

  datatype Error = ErrExist | ErrNotExist | ErrInvalid | ErrNoSuchEntry | ErrConflict | ErrMarshal

  datatype Result<T> = Ok(value: T) | Err(error: Error)

  const ROOT_PARENT: Id := "root"

  const ROOT_NAME := "/"

  /** What Init puts into empty tables. */
  function Initial(rootId: Id, now: int): State {
    State(
      map[rootId := Entry(rootId, ROOT_PARENT, ROOT_NAME, Dir, 0, now, map[], 1)],
      Reference(map[[] := rootId], 1))
  }

  // ---------- Transactions ----------

  /** AddEntry's transaction, with the reference it has read. */
  function CommitAdd(st: State, ref: Reference, entry: Entry, path: Path): Result<State> {
    if st.ref.version != ref.version then Err(ErrConflict)
    else Ok(State(st.table[entry.id := entry], Reference(ref.entries[path := entry.id], ref.version + 1)))
  }

  /** UpdateEntry. An item that does not exist fails the version condition. */
  function CommitUpdate(st: State, entry: Entry): Result<State> {
    if entry.id !in st.table || st.table[entry.id].version != entry.version then Err(ErrConflict)
    else
      var was := st.table[entry.id];
      Ok(st.(table := st.table[entry.id := was.(size := entry.size, modified := entry.modified, deadProps := entry.deadProps, version := was.version + 1)]))
  }

  /** UpdateEntryName. */
  function CommitRename(st: State, entry: Entry, ref: Reference): Result<State> {
    if entry.id !in st.table || st.table[entry.id].version != entry.version || st.ref.version != ref.version then Err(ErrConflict)
    else
      var was := st.table[entry.id];
      Ok(State(
           st.table[entry.id := was.(name := entry.name, parentId := entry.parentId, version := was.version + 1)],
           Reference(ref.entries, ref.version + 1)))
  }

  /** DeleteEntries. */
  function CommitDelete(st: State, ids: seq<Id>, ref: Reference): Result<State> {
    if st.ref.version != ref.version then Err(ErrConflict)
    else Ok(State(st.table - (set id | id in ids), Reference(ref.entries, ref.version + 1)))
  }

  // ---------- What the operations compute from an index ----------

  /** RemoveAll's loop leaves the keys that are neither the path nor below it. */
  function Pruned(idx: Index, path: Path): Index {
    map p | p in idx && !Within(p, path) :: idx[p]
  }

  /** One round of Rename's loop, when the iteration produces the key k. */
  function MoveKey(idx: Index, k: Path, from: Path, to: Path): Index {
    if k in idx && Below(k, from) then (idx - {k})[Rebase(k, from, to) := idx[k]] else idx
  }

  function MoveKeys(idx: Index, order: seq<Path>, from: Path, to: Path): Index
    decreases |order|
  {
    if order == [] then idx else MoveKeys(MoveKey(idx, order[0], from, to), order[1..], from, to)
  }

  /** The index Rename writes. `order` lists the keys that the iteration over the map produces;
      Go leaves it open, and whether keys added on the way are among them. */
  function Renamed(idx: Index, from: Path, to: Path, isDir: bool, order: seq<Path>): Index
    requires from in idx
  {
    var moved := idx[to := idx[from]] - {from};
    if isDir then MoveKeys(moved, order, from, to) else moved
  }

  // ---------- Operations that are not interrupted ----------

  function NewEntry(id: Id, parentId: Id, path: Path, kind: Kind, size: nat, now: int): Entry
    requires path != []
  {
    Entry(id, parentId, Last(path), kind, size, now, map[], 1)
  }

  /** The checks of Mkdir against the reference it reads first. */
  function CheckMkdir(ref: Reference, path: Path): Result<Id> {
    if path == [] || path in ref.entries then Err(ErrExist)
    else if Parent(path) !in ref.entries then Err(ErrNotExist)
    else Ok(ref.entries[Parent(path)])
  }

  function Mkdir(st: State, path: Path, id: Id, now: int): Result<State> {
    match CheckMkdir(st.ref, path)
    case Err(e) => Err(e)
    case Ok(parentId) => CommitAdd(st, st.ref, NewEntry(id, parentId, path, Dir, 0, now), path)
  }

  function GetEntry(st: State, id: Id): Result<Entry> {
    if id in st.table then Ok(st.table[id]) else Err(ErrNoSuchEntry)
  }

  /** Create: a new file entry, or new contents for the entry that is there (of either kind). */
  function Create(st: State, path: Path, id: Id, size: nat, now: int): Result<State> {
    if path in st.ref.entries then
      match GetEntry(st, st.ref.entries[path])
      case Err(e) => Err(e)
      case Ok(entry) => CommitUpdate(st, entry.(size := size, modified := now))
    else if path == [] || Parent(path) !in st.ref.entries then Err(ErrNotExist)
    else CommitAdd(st, st.ref, NewEntry(id, st.ref.entries[Parent(path)], path, File, size, now), path)
  }

  /** Patch on a file opened just before. */
  function Patch(st: State, path: Path, deadProps: map<string, string>): Result<State> {
    if path !in st.ref.entries then Err(ErrNotExist)
    else
      match GetEntry(st, st.ref.entries[path])
      case Err(e) => Err(e)
      case Ok(entry) => CommitUpdate(st, entry.(deadProps := deadProps))
  }

  /** `ids` lists the values of the keys removed, in the order of the iteration. */
  function RemoveAll(st: State, path: Path, ids: seq<Id>): Result<State> {
    if path == [] then Err(ErrInvalid)
    else if path !in st.ref.entries then Err(ErrNotExist)
    else CommitDelete(st, ids, st.ref.(entries := Pruned(st.ref.entries, path)))
  }

  ghost predicate RemovedIds(idx: Index, path: Path, ids: seq<Id>) {
    forall id :: id in ids <==> exists p | p in idx && Within(p, path) :: idx[p] == id
  }

  function CheckRename(ref: Reference, from: Path, to: Path): Result<(Id, Id)> {
    if from == [] || to == [] then Err(ErrInvalid)
    else if from !in ref.entries then Err(ErrNotExist)
    else if Parent(to) !in ref.entries then Err(ErrNotExist)
    else Ok((ref.entries[from], ref.entries[Parent(to)]))
  }

  function Rename(st: State, from: Path, to: Path, order: seq<Path>): Result<State> {
    match CheckRename(st.ref, from, to)
    case Err(e) => Err(e)
    case Ok((id, parentId)) =>
      match GetEntry(st, id)
      case Err(e) => Err(e)
      case Ok(entry) =>
        CommitRename(st, entry.(name := Last(to), parentId := parentId),
                     st.ref.(entries := Renamed(st.ref.entries, from, to, entry.kind.Dir?, order)))
  }

  /** The iteration produces every key that was there when it began. */
  ghost predicate Complete(order: seq<Path>, idx: Index, from: Path, to: Path) {
    forall k | k in idx || k == to :: k in order
  }
}
