/**
 * The backing server's inode table, as values.
 *
 * The server keeps three globals: `inode2names` (inode -> path),
 * `inode2type` (inode -> 'f' or 'd') and the counter `next_inode`, and it
 * keeps them in step with a directory tree on disk. A `ServerState` is a
 * snapshot of all four. Each HTTP handler is specified here as a function
 * of the snapshot (and its request parameters) giving the reply and, for
 * the handlers that change something, the next snapshot. `Consistent` is
 * the invariant the handlers keep.
 */
module InodeTable {
  import opened Text

  datatype Option<T> = None | Some(value: T)

  /**
   * What a handler answers: a body, or an HTTP error. `ServerError`
   * stands for an uncaught Python exception, which the framework turns
   * into a 500 reply.
   */
  datatype Reply<T> =
    | Ok(value: T)
    | NotFound      // 404
    | BadRequest    // 400
    | Conflict      // 409
    | ServerError   // 500

  newtype Byte = x: int | 0 <= x < 256

  datatype Kind = File | Dir

  /** The one-character type tag stored in `inode2type` and sent on the wire. */
  function Tag(k: Kind): char {
    match k
    case File => 'f'
    case Dir => 'd'
  }

  /** The `create_type` check: only "f" and "d" name a kind. */
  function ParseKind(s: string): (k: Option<Kind>)
    ensures k.Some? <==> (s == "f" || s == "d")
    ensures k.Some? ==> [Tag(k.value)] == s
  {
    if s == "f" then Some(File) else if s == "d" then Some(Dir) else None
  }

  /** What the disk holds at a path. */
  datatype Node = FileNode(data: seq<Byte>) | DirNode

  function KindOf(n: Node): Kind {
    if n.FileNode? then File else Dir
  }

  /** What `open(path, 'w')` or `os.mkdir(path)` leaves at a new path. */
  function EmptyNode(k: Kind): (n: Node)
    ensures KindOf(n) == k
  {
    match k
    case File => FileNode([])
    case Dir => DirNode
  }

  const RootInode: int := 1000
  const FirstInode: int := 1001
  const RootDir: string := "root"

  /** `os.path.join(dir, name)`, without the library's normalisation. */
  function Join(dir: string, name: string): string {
    dir + "/" + name
  }

  /** The directory part of a path (what precedes its last '/'), without the library's normalisation. */
  function Parent(p: string): string {
    if p == [] then ""
    else if p[|p| - 1] == '/' then p[..|p| - 1]
    else Parent(p[..|p| - 1])
  }

  /** The directory `path` would be made in exists on disk and is a directory. */
  predicate ParentIsDir(disk: map<string, Node>, path: string) {
    Parent(path) in disk && disk[Parent(path)] == DirNode
  }

  /** Every path but the root lies in a directory that is on disk. */
  predicate IsTree(disk: map<string, Node>) {
    forall p {:trigger ParentIsDir(disk, p)} :: p in disk && p != RootDir ==> ParentIsDir(disk, p)
  }

  datatype ServerState = ServerState(
    inodeNames: map<int, string>,
    inodeTypes: map<int, Kind>,
    nextInode: int,
    disk: map<string, Node>)

  /** The invariant of the tables and the disk they describe. */
  ghost predicate Consistent(s: ServerState) {
    // the two tables have one key set
    && s.inodeNames.Keys == s.inodeTypes.Keys
    // the root is inode 1000, the directory "root"
    && RootInode in s.inodeNames
    && s.inodeNames[RootInode] == RootDir
    && s.inodeTypes[RootInode] == Dir
    // every inode was handed out by the counter, and no path has two
    && Indexed(s)
    // every other inode names a path below the root
    && (forall i :: i in s.inodeNames && i != RootInode ==> RootDir + "/" <= s.inodeNames[i])
    // the tables and the disk describe the same paths, with the same kinds
    && (forall i :: i in s.inodeNames ==> s.inodeNames[i] in s.disk && KindOf(s.disk[s.inodeNames[i]]) == s.inodeTypes[i])
    && (forall p {:trigger Registered(s, p)} :: p in s.disk ==> Registered(s, p))
    // the disk is a tree hanging from the root
    && IsTree(s.disk)
  }

  /** The inode numbers lie between the root's and the counter, and no path has two. */
  ghost predicate Indexed(s: ServerState) {
    && Numbered(s)
    && (forall i, j :: i in s.inodeNames && j in s.inodeNames && s.inodeNames[i] == s.inodeNames[j] ==> i == j)
  }

  /** The inode numbers lie between the root's and the counter. */
  ghost predicate Numbered(s: ServerState) {
    && FirstInode <= s.nextInode
    && (forall i :: i in s.inodeNames ==> RootInode <= i < s.nextInode)
  }

  /** Some inode is recorded for `path`. */
  ghost predicate Registered(s: ServerState, path: string) {
    exists i :: i in s.inodeNames && s.inodeNames[i] == path
  }

  /** The inode recorded for `path`; under `Consistent` there is exactly one. */
  ghost function InodeOf(s: ServerState, path: string): (i: int)
    requires Registered(s, path)
    ensures i in s.inodeNames && s.inodeNames[i] == path
  {
    var i :| i in s.inodeNames && s.inodeNames[i] == path; i
  }

  /** There is something below `dir` on disk (`os.rmdir` refuses it). */
  predicate HasEntries(disk: map<string, Node>, dir: string) {
    exists p :: p in disk && dir + "/" <= p
  }

  // ----- lookup -----

  /** `GET /lookup`: the kind tag of `name` under `inode`, then its inode number. */
  ghost function LookupReply(s: ServerState, inode: int, name: string): Reply<string>
    requires Consistent(s)
  {
    if inode !in s.inodeNames then NotFound
    else
      var path := Join(s.inodeNames[inode], name);
      if path !in s.disk then NotFound
      else Ok([Tag(KindOf(s.disk[path]))] + Decimal(InodeOf(s, path)))
  }

  // ----- list -----

  /** One line of a directory listing. */
  datatype Entry = Entry(kind: Kind, inode: nat, name: string)

  function EntryLine(e: Entry): string {
    [Tag(e.kind)] + " " + Decimal(e.inode) + " " + e.name + "\n"
  }

  function Lines(es: seq<Entry>): string {
    if es == [] then "" else Lines(es[..|es| - 1]) + EntryLine(es[|es| - 1])
  }

  /** The body of a listing: the entry count on its own line, then one line per entry. */
  function ListingText(es: seq<Entry>): string {
    Decimal(|es|) + "\n" + Lines(es)
  }

  /** `name` is an entry of directory `dir`: one path component that exists on disk. */
  ghost predicate IsChild(disk: map<string, Node>, dir: string, name: string) {
    name != "" && '/' !in name && Join(dir, name) in disk
  }

  /**
   * What `os.listdir(dir)` returns: every entry of `dir`, each once, in
   * an order the file system picks.
   */
  ghost predicate IsListing(disk: map<string, Node>, dir: string, listing: seq<string>) {
    && (forall k :: 0 <= k < |listing| ==> IsChild(disk, dir, listing[k]))
    && (forall k, l :: 0 <= k < l < |listing| ==> listing[k] != listing[l])
    && (forall name :: IsChild(disk, dir, name) ==> name in listing)
  }

  /** The entry's path is on disk and has an inode. */
  ghost predicate Listed(s: ServerState, dir: string, name: string) {
    Join(dir, name) in s.disk && Registered(s, Join(dir, name))
  }

  ghost function EntryOf(s: ServerState, dir: string, name: string): Entry
    requires Indexed(s) && Listed(s, dir, name)
  {
    var path := Join(dir, name);
    Entry(KindOf(s.disk[path]), InodeOf(s, path), name)
  }

  ghost function EntriesOf(s: ServerState, dir: string, names: seq<string>): (es: seq<Entry>)
    requires Indexed(s)
    requires forall j :: 0 <= j < |names| ==> Listed(s, dir, names[j])
    ensures |es| == |names|
  {
    if names == [] then []
    else EntriesOf(s, dir, names[..|names| - 1]) + [EntryOf(s, dir, names[|names| - 1])]
  }

  /** `GET /list`: the listing of directory `inode`, given what `os.listdir` returned. */
  ghost function ListReply(s: ServerState, inode: int, listing: seq<string>): Reply<string>
    requires Consistent(s)
    requires inode in s.inodeTypes && s.inodeTypes[inode] == Dir ==> IsListing(s.disk, s.inodeNames[inode], listing)
  {
    if inode !in s.inodeTypes then NotFound
    else if s.inodeTypes[inode] != Dir then BadRequest
    else Ok(ListingText(EntriesOf(s, s.inodeNames[inode], listing)))
  }

  // ----- read_size, read -----

  /** `GET /read_size`: the byte length of file `inode`. */
  function ReadSizeReply(s: ServerState, inode: int): Reply<string>
    requires Consistent(s)
  {
    if inode !in s.inodeNames then NotFound
    else if s.inodeTypes[inode] != File then BadRequest
    else Ok(Decimal(|s.disk[s.inodeNames[inode]].data|))
  }

  /** `GET /read`: the bytes of file `inode`. */
  function ReadReply(s: ServerState, inode: int): Reply<seq<Byte>>
    requires Consistent(s)
  {
    if inode !in s.inodeNames then NotFound
    else if s.inodeTypes[inode] != File then BadRequest
    else Ok(s.disk[s.inodeNames[inode]].data)
  }

  // ----- create -----

  /**
   * Record `path` under the next inode with the given kind, advance the
   * counter, and make the empty file or directory on disk.
   */
  function Allocate(s: ServerState, path: string, kind: Kind): ServerState {
    ServerState(
      s.inodeNames[s.nextInode := path],
      s.inodeTypes[s.nextInode := kind],
      s.nextInode + 1,
      s.disk[path := EmptyNode(kind)])
  }

  /**
   * `GET /create` as the source has it. When the directory the joined
   * path would be made in is missing or is a file, `exists()` on the path
   * is False, the tables and the counter are updated, and only then does
   * `open`/`os.mkdir` raise (`FileNotFoundError`, `NotADirectoryError`).
   */
  function CreateAsWritten(s: ServerState, parent: int, name: string, createType: string): (r: (ServerState, Reply<string>))
    requires Consistent(s)
    // 404, 400 and 409 change nothing
    ensures r.1 in {NotFound, BadRequest, Conflict} ==> r.0 == s
    // 500 exactly when the path is new but its directory is missing or a file
    ensures r.1 == ServerError <==>
      && parent in s.inodeNames
      && ParseKind(createType).Some?
      && Join(s.inodeNames[parent], name) !in s.disk
      && !ParentIsDir(s.disk, Join(s.inodeNames[parent], name))
    // ... and then the new inode is recorded and counted, but the disk is untouched
    ensures r.1 == ServerError ==>
      && r.0.inodeNames == s.inodeNames[s.nextInode := Join(s.inodeNames[parent], name)]
      && r.0.inodeTypes == s.inodeTypes[s.nextInode := ParseKind(createType).value]
      && r.0.nextInode == s.nextInode + 1
      && r.0.disk == s.disk
  {
    if parent !in s.inodeNames then (s, NotFound)
    else match ParseKind(createType)
      case None => (s, BadRequest)
      case Some(kind) =>
        var path := Join(s.inodeNames[parent], name);
        if path in s.disk then (s, Conflict)
        else if ParentIsDir(s.disk, path) then
          (Allocate(s, path, kind), Ok(Decimal(s.nextInode)))
        else
          // the tables were written, the disk was not
          (ServerState(s.inodeNames[s.nextInode := path], s.inodeTypes[s.nextInode := kind], s.nextInode + 1, s.disk), ServerError)
  }

  /**
   * `GET /create`, corrected: a path whose directory is missing or is not
   * a directory is refused before anything is recorded. This is the
   * create the server model uses.
   */
  function CreateStep(s: ServerState, parent: int, name: string, createType: string): (ServerState, Reply<string>)
    requires Consistent(s)
  {
    if parent !in s.inodeNames then (s, NotFound)
    else match ParseKind(createType)
      case None => (s, BadRequest)
      case Some(kind) =>
        var path := Join(s.inodeNames[parent], name);
        if path in s.disk then (s, Conflict)
        else if !ParentIsDir(s.disk, path) then (s, BadRequest)
        else (Allocate(s, path, kind), Ok(Decimal(s.nextInode)))
  }

  // ----- unlink -----

  /**
   * `GET /unlink`: remove `name` under `parent` when its recorded type is
   * `deleteType`. An unknown path makes `inode_from_name` raise, and
   * `os.rmdir` raises on a directory that still has entries.
   */
  ghost function UnlinkStep(s: ServerState, parent: int, name: string, deleteType: string): (ServerState, Reply<string>)
    requires Consistent(s)
  {
    if parent !in s.inodeNames then (s, NotFound)
    else
      var path := Join(s.inodeNames[parent], name);
      if !Registered(s, path) then (s, ServerError)
      else
        var victim := InodeOf(s, path);
        if [Tag(s.inodeTypes[victim])] != deleteType then (s, BadRequest)
        else if deleteType == "d" && HasEntries(s.disk, path) then (s, ServerError)
        else
          (ServerState(s.inodeNames - {victim}, s.inodeTypes - {victim}, s.nextInode, s.disk - {path}), Ok(""))
  }

  // ----- write -----

  /**
   * `bytes([ord(c) for c in content])`: each character's code as one
   * byte, or None when a code is beyond 255 and `bytes` raises.
   */
  function Latin1(content: string): (r: Option<seq<Byte>>)
    ensures r.Some? <==> forall k :: 0 <= k < |content| ==> content[k] as int < 256
    ensures r.Some? ==> |r.value| == |content|
    ensures r.Some? ==> forall k :: 0 <= k < |content| ==> r.value[k] as int == content[k] as int
  {
    if content == [] then Some([])
    else
      var last := content[|content| - 1];
      match Latin1(content[..|content| - 1])
      case None => None
      case Some(init) => if last as int < 256 then Some(init + [last as int as Byte]) else None
  }

  /**
   * `GET /write`: replace the bytes of file `inode`. The file is opened
   * for writing, which empties it, before the bytes are made; when that
   * raises the file stays empty.
   */
  function WriteStep(s: ServerState, inode: int, content: string): (ServerState, Reply<string>)
    requires Consistent(s)
  {
    if inode !in s.inodeNames then (s, NotFound)
    else if s.inodeTypes[inode] != File then (s, BadRequest)
    else
      var path := s.inodeNames[inode];
      match Latin1(content)
      case None => (s.(disk := s.disk[path := FileNode([])]), ServerError)
      case Some(data) => (s.(disk := s.disk[path := FileNode(data)]), Ok(""))
  }
}
