/**
 * The backing server itself: its module-level state becomes the fields of
 * one object, its start-up population loop the constructor, and each HTTP
 * handler a method. Every method is proved against the handler's
 * specification in `InodeTable`, and every method that changes state keeps
 * `Valid()`.
 */
module NfsServer {
  import opened Text
  import opened InodeTable
  import opened InodeTableProperties

  /**
   * What `os.walk(root)` reports, flattened into one sequence of paths:
   * every path below the root once each, each of them on disk, the disk
   * being a tree under the root directory.
   */
  ghost predicate IsWalk(disk: map<string, Node>, walk: seq<string>) {
    && RootDir in disk && disk[RootDir] == DirNode
    && IsTree(disk)
    && (forall k :: 0 <= k < |walk| ==> walk[k] in disk && RootDir + "/" <= walk[k])
    && (forall k, l :: 0 <= k < l < |walk| ==> walk[k] != walk[l])
    && (forall p :: p in disk && p != RootDir ==> p in walk)
  }

  /**
   * The tables the start-up loop builds from a walk: the root at 1000 and
   * walked path k at 1001+k with its kind on disk. They satisfy the
   * invariant.
   */
  lemma WalkStateConsistent(disk0: map<string, Node>, walk: seq<string>, names: map<int, string>, types: map<int, Kind>)
    requires IsWalk(disk0, walk)
    requires names.Keys == types.Keys
    requires forall i :: i in names <==> RootInode <= i < FirstInode + |walk|
    requires names[RootInode] == RootDir && types[RootInode] == Dir
    requires forall i :: FirstInode <= i < FirstInode + |walk| ==>
      names[i] == walk[i - FirstInode] && types[i] == KindOf(disk0[walk[i - FirstInode]])
    ensures Consistent(ServerState(names, types, FirstInode + |walk|, disk0))
  {
    var s := ServerState(names, types, FirstInode + |walk|, disk0);
    assert forall i :: i in names && i != RootInode ==> names[i] == walk[i - FirstInode];
    forall p | p in disk0
      ensures Registered(s, p)
    {
      if p == RootDir {
        assert names[RootInode] == p;
      } else {
        var j :| 0 <= j < |walk| && walk[j] == p;
        assert names[FirstInode + j] == p;
      }
    }
  }

  class Server {
    var inodeNames: map<int, string>   // inode2names
    var inodeTypes: map<int, Kind>     // inode2type
    var nextInode: int                 // next_inode
    var disk: map<string, Node>        // the tree below "root"

    function State(): ServerState
      reads this
    {
      ServerState(inodeNames, inodeTypes, nextInode, disk)
    }

    ghost predicate Valid()
      reads this
    {
      Consistent(State())
    }

    /**
     * Start-up: the root is inode 1000, and every path the walk reports
     * gets the next inode, in walk order, with the kind it has on disk.
     */
    constructor (disk0: map<string, Node>, walk: seq<string>)
      requires IsWalk(disk0, walk)
      ensures Valid()
      ensures disk == disk0
      ensures nextInode == FirstInode + |walk|
      ensures forall i :: i in inodeNames <==> RootInode <= i < nextInode
      ensures forall k :: 0 <= k < |walk| ==>
        && FirstInode + k in inodeNames
        && inodeNames[FirstInode + k] == walk[k]
        && inodeTypes[FirstInode + k] == KindOf(disk0[walk[k]])
    {
      var names := map[RootInode := RootDir];
      var types := map[RootInode := Dir];
      var next := FirstInode;
      var k := 0;
      while k < |walk|
        invariant 0 <= k <= |walk|
        invariant next == FirstInode + k
        invariant names.Keys == types.Keys
        invariant forall i :: i in names <==> RootInode <= i < next
        invariant names[RootInode] == RootDir && types[RootInode] == Dir
        invariant forall i :: FirstInode <= i < next ==>
          names[i] == walk[i - FirstInode] && types[i] == KindOf(disk0[walk[i - FirstInode]])
      {
        var path := walk[k];
        var inode := next;
        next := next + 1;
        names := names[inode := path];
        types := types[inode := KindOf(disk0[path])];
        k := k + 1;
      }
      WalkStateConsistent(disk0, walk, names, types);
      inodeNames, inodeTypes, nextInode, disk := names, types, next, disk0;
    }

    /**
     * `inode_from_name`: the first inode, in insertion order, whose path
     * is `path`. Inodes enter the tables in increasing order, so the scan
     * goes up from the root's number; None is the source's IndexError.
     */
    method InodeFromName(path: string) returns (found: Option<int>)
      requires Numbered(State())
      ensures found.Some? <==> Registered(State(), path)
      ensures found.Some? ==> found.value in inodeNames && inodeNames[found.value] == path
      ensures found.Some? ==> forall j :: j in inodeNames && inodeNames[j] == path ==> found.value <= j
      // when no path has two inodes, the one found is the invariant's
      ensures found.Some? && Indexed(State()) ==> found.value == InodeOf(State(), path)
    {
      var candidate := RootInode;
      while candidate < nextInode
        invariant RootInode <= candidate <= nextInode
        invariant forall j :: j in inodeNames && j < candidate ==> inodeNames[j] != path
      {
        if candidate in inodeNames && inodeNames[candidate] == path {
          return Some(candidate);
        }
        candidate := candidate + 1;
      }
      return None;
    }

    /** `GET /lookup` */
    method Lookup(inode: int, name: string) returns (r: Reply<string>)
      requires Valid()
      ensures r == LookupReply(State(), inode, name)
    {
      if inode !in inodeNames {
        return NotFound;
      }
      var path := Join(inodeNames[inode], name);
      if path !in disk {
        return NotFound;
      }
      var tag := Tag(KindOf(disk[path]));
      var found := InodeFromName(path);
      r := Ok([tag] + Decimal(found.value));
    }

    /** `GET /list`; `listing` is what `os.listdir` returns for the directory. */
    method ListDir(inode: int, listing: seq<string>) returns (r: Reply<string>)
      requires Valid()
      requires inode in inodeTypes && inodeTypes[inode] == Dir ==> IsListing(disk, inodeNames[inode], listing)
      ensures r == ListReply(State(), inode, listing)
    {
      if inode !in inodeTypes {
        return NotFound;
      }
      if inodeTypes[inode] != Dir {
        return BadRequest;
      }
      var dir := inodeNames[inode];
      var resp := ListingBody(dir, listing);
      return Ok(resp);
    }

    /** The body of a listing: the count line, then one line per entry in `listing` order. */
    method ListingBody(dir: string, listing: seq<string>) returns (resp: string)
      requires Indexed(State())
      requires forall j :: 0 <= j < |listing| ==> Listed(State(), dir, listing[j])
      ensures resp == ListingText(EntriesOf(State(), dir, listing))
    {
      ghost var s := State();
      // the entry lines are gathered first and the count line put in front:
      // the same text as appending each line to the count line
      var lines := "";
      var k := 0;
      assert listing[..0] == [];
      while k < |listing|
        invariant 0 <= k <= |listing|
        invariant lines == Lines(EntriesOf(s, dir, listing[..k]))
      {
        var line := EntryText(dir, listing[k]);
        LinesOfPrefix(s, dir, listing, k);
        lines := lines + line;
        k := k + 1;
      }
      assert listing[..k] == listing;
      resp := Decimal(|listing|) + "\n" + lines;
    }

    /** One line of a listing: the entry's type on disk, its inode, its name. */
    method EntryText(dir: string, entry: string) returns (line: string)
      requires Indexed(State())
      requires Listed(State(), dir, entry)
      ensures line == EntryLine(EntryOf(State(), dir, entry))
    {
      var fullPath := Join(dir, entry);
      var found := InodeFromName(fullPath);
      var entryType := Tag(KindOf(disk[fullPath]));
      line := [entryType] + " " + Decimal(found.value) + " " + entry + "\n";
    }

    /**
     * `GET /create`, with the check the source lacks: the directory the
     * new path goes in must exist on disk as a directory.
     */
    method Create(parent: int, name: string, createType: string) returns (r: Reply<string>)
      requires Valid()
      modifies this
      ensures Valid()
      ensures (State(), r) == CreateStep(old(State()), parent, name, createType)
    {
      ghost var s0 := State();
      CreatePreservesConsistent(s0, parent, name, createType);
      if parent !in inodeNames {
        return NotFound;
      }
      var parsed := ParseKind(createType);
      if parsed.None? {
        return BadRequest;
      }
      var dir := inodeNames[parent];
      var fullPath := Join(dir, name);
      if fullPath in disk {
        return Conflict;
      }
      if !ParentIsDir(disk, fullPath) {
        return BadRequest;
      }
      var newInode := nextInode;
      nextInode := nextInode + 1;
      var kind := parsed.value;
      inodeNames := inodeNames[newInode := fullPath];
      inodeTypes := inodeTypes[newInode := kind];
      disk := disk[fullPath := EmptyNode(kind)];
      r := Ok(Decimal(newInode));
      assert State() == Allocate(s0, fullPath, kind);
    }

    /** `GET /unlink` */
    method Unlink(parent: int, name: string, deleteType: string) returns (r: Reply<string>)
      requires Valid()
      modifies this
      ensures Valid()
      ensures (State(), r) == UnlinkStep(old(State()), parent, name, deleteType)
    {
      UnlinkPreservesConsistent(State(), parent, name, deleteType);
      if parent !in inodeNames {
        return NotFound;
      }
      var dir := inodeNames[parent];
      var fullPath := Join(dir, name);
      var found := InodeFromName(fullPath);
      if found.None? {
        return ServerError;
      }
      var toDelete := found.value;
      var nodeType := [Tag(inodeTypes[toDelete])];
      if nodeType != deleteType {
        return BadRequest;
      }
      if deleteType == "d" && HasEntries(disk, fullPath) {
        return ServerError;
      }
      disk := disk - {fullPath};
      inodeNames := inodeNames - {toDelete};
      inodeTypes := inodeTypes - {toDelete};
      r := Ok("");
    }

    /** `GET /read_size` */
    method ReadSize(inode: int) returns (r: Reply<string>)
      requires Valid()
      ensures r == ReadSizeReply(State(), inode)
    {
      if inode !in inodeNames {
        return NotFound;
      }
      if inodeTypes[inode] != File {
        return BadRequest;
      }
      var data := disk[inodeNames[inode]].data;
      r := Ok(Decimal(|data|));
    }

    /** `GET /read` */
    method Read(inode: int) returns (r: Reply<seq<Byte>>)
      requires Valid()
      ensures r == ReadReply(State(), inode)
    {
      if inode !in inodeNames {
        return NotFound;
      }
      if inodeTypes[inode] != File {
        return BadRequest;
      }
      r := Ok(disk[inodeNames[inode]].data);
    }

    /** `GET /write`: the file is emptied on opening, before its bytes are made. */
    method Write(inode: int, content: string) returns (r: Reply<string>)
      requires Valid()
      modifies this
      ensures Valid()
      ensures (State(), r) == WriteStep(old(State()), inode, content)
    {
      ghost var s0 := State();
      WritePreservesConsistent(s0, inode, content);
      if inode !in inodeNames {
        return NotFound;
      }
      if inodeTypes[inode] != File {
        return BadRequest;
      }
      var path := inodeNames[inode];
      disk := disk[path := FileNode([])];
      var bytes := Latin1(content);
      if bytes.None? {
        assert State() == s0.(disk := s0.disk[path := FileNode([])]);
        return ServerError;
      }
      disk := disk[path := FileNode(bytes.value)];
      r := Ok("");
      assert State() == s0.(disk := s0.disk[path := FileNode(bytes.value)]);
    }
  }
}
