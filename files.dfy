/**
 * Files and directory stores.
 *
 * A Location stands for a GFile: its path and whether it lives on a native
 * (local) file system. A FileInfo is what the directory enumerator reports
 * for one child; an Entry is a FileInfo with the child's own file attached,
 * as got_files attaches it before adding the info to a store. A Store is the
 * GListStore of one directory: the directory's file, the entries added so
 * far, and the log of "items-changed" notifications it has emitted.
 */
module Files {

  datatype Location = Location(path: string, native: bool)

  /** The result of g_file_query_file_type; only "is it a directory" matters here. */
  datatype FileKind = Directory | Regular | OtherKind

  datatype FileInfo = FileInfo(name: string, displayName: string, kind: FileKind)

  datatype Entry = Entry(info: FileInfo, file: Location)

  /** One "items-changed" signal: at `position`, `removed` items were replaced by `added` items. */
  datatype ItemsChanged = ItemsChanged(position: nat, removed: nat, added: nat)

  /**
   * g_file_get_child: the file called `name` inside `dir`. It lives on the
   * same kind of file system, and its path is the directory's path followed
   * by the name.
   */
  function Child(dir: Location, name: string): (c: Location)
    ensures c.native == dir.native
    ensures dir.path <= c.path
    ensures |name| <= |c.path| && c.path[|c.path| - |name|..] == name
  {
    var sep := if |dir.path| > 0 && dir.path[|dir.path| - 1] == '/' then "" else "/";
    var p := dir.path + sep + name;
    assert p[|p| - |name|..] == name;
    Location(p, dir.native)
  }

  /**
   * The entries got_files builds from one batch of infos read in `dir`: one
   * entry per info, in batch order, each carrying its child file.
   */
  function Attach(dir: Location, batch: seq<FileInfo>): (es: seq<Entry>)
    ensures |es| == |batch|
    ensures forall i :: 0 <= i < |batch| ==> es[i].info == batch[i] && es[i].file == Child(dir, batch[i].name)
  {
    if batch == [] then [] else [Entry(batch[0], Child(dir, batch[0].name))] + Attach(dir, batch[1..])
  }

  /** The GListStore of one directory's entries. */
  class Store {
    const file: Location
    var items: seq<Entry>
    var changes: seq<ItemsChanged>

    /** g_list_store_new, with the directory's file attached. */
    constructor (file: Location)
      ensures this.file == file && items == [] && changes == []
    {
      this.file := file;
      items := [];
      changes := [];
    }

    /**
     * g_list_store_splice: replace `removals` items at `position` by
     * `additions`, emitting exactly one "items-changed" notification.
     */
    method Splice(position: nat, removals: nat, additions: seq<Entry>)
      requires position + removals <= |items|
      modifies this
      ensures items == old(items[..position]) + additions + old(items[position + removals..])
      ensures changes == old(changes) + [ItemsChanged(position, removals, |additions|)]
    {
      items := items[..position] + additions + items[position + removals..];
      changes := changes + [ItemsChanged(position, removals, |additions|)];
    }
  }
}
