/**
 * What the handlers promise about the inode table: each one keeps the
 * invariant, creation hands out fresh inodes, unlink removes exactly one,
 * replies read back to what the tables hold, and operations compose the
 * way a client expects (create then lookup, create then unlink, write
 * then read).
 */
module InodeTableProperties {
  import opened Text
  import opened InodeTable

  // ----- paths -----

  /** Joining a name onto the root or a path below it stays below the root. */
  lemma JoinBelowRoot(dir: string, name: string)
    requires dir == RootDir || RootDir + "/" <= dir
    ensures RootDir + "/" <= Join(dir, name)
    ensures Join(dir, name) != RootDir
  {
    var p := Join(dir, name);
    if dir == RootDir {
      assert p[..|RootDir| + 1] == RootDir + "/";
    } else {
      assert p[..|RootDir| + 1] == dir[..|RootDir| + 1];
    }
  }

  lemma ParentBelowRoot(s: ServerState, parent: int, name: string)
    requires Consistent(s) && parent in s.inodeNames
    ensures RootDir + "/" <= Join(s.inodeNames[parent], name)
    ensures Join(s.inodeNames[parent], name) != RootDir
  {
    JoinBelowRoot(s.inodeNames[parent], name);
  }

  /**
   * A path holding a '/' is its directory part, a '/', and a last name
   * without one.
   */
  lemma {:induction false} ParentSplit(q: string)
    requires '/' in q
    ensures |Parent(q)| < |q|
    ensures q[..|Parent(q)| + 1] == Parent(q) + "/"
    ensures forall j :: |Parent(q)| < j < |q| ==> q[j] != '/'
  {
    var init := q[..|q| - 1];
    if q[|q| - 1] != '/' {
      assert '/' in init by {
        var k :| 0 <= k < |q| && q[k] == '/';
        assert init[k] == '/';
      }
      ParentSplit(init);
      assert q[..|Parent(q)| + 1] == init[..|Parent(q)| + 1];
    }
  }

  /** A path below the root is its directory part followed by '/' and more. */
  lemma ParentPrefix(q: string)
    requires RootDir + "/" <= q
    ensures Parent(q) + "/" <= q
  {
    assert q[|RootDir|] == '/' && q[|RootDir|] in q;
    ParentSplit(q);
  }

  /**
   * The directory part of a joined path is the directory itself, or,
   * when the name holds a '/', a path below that directory.
   */
  lemma ParentOfJoin(dir: string, name: string)
    ensures Parent(Join(dir, name)) == dir || dir + "/" <= Parent(Join(dir, name))
    ensures '/' !in name ==> Parent(Join(dir, name)) == dir
  {
    var p := Join(dir, name);
    assert p[|dir|] == '/' && p[|dir|] in p;
    ParentSplit(p);
    var k := |Parent(p)|;
    assert Parent(p) == p[..k];
    if k == |dir| {
      assert p[..k] == dir;
    } else {
      assert p[..k][..|dir| + 1] == dir + "/";
      assert p[k] == name[k - |dir| - 1];
      assert name[k - |dir| - 1] in name;
    }
  }

  /** In a tree, anything on disk below `dir` means `dir` is a directory on disk. */
  lemma {:induction false} AncestorIsDir(disk: map<string, Node>, dir: string, q: string)
    requires IsTree(disk)
    requires q in disk && dir + "/" <= q
    ensures dir in disk && disk[dir] == DirNode
    decreases |q|
  {
    assert '/' !in RootDir;
    assert q[|dir|] == '/' && q[|dir|] in q;
    ParentSplit(q);
    var d := Parent(q);
    assert ParentIsDir(disk, q);
    assert d == q[..|d|];
    if |d| > |dir| {
      assert d[..|dir| + 1] == dir + "/";
      AncestorIsDir(disk, dir, d);
    } else {
      assert d == dir;
    }
  }

  /** In a tree, nothing lies below a path that is not on disk. */
  lemma NothingBelowAbsent(disk: map<string, Node>, path: string)
    requires IsTree(disk) && path !in disk
    ensures !HasEntries(disk, path)
  {
    forall q | q in disk
      ensures !(path + "/" <= q)
    {
      if path + "/" <= q {
        AncestorIsDir(disk, path, q);
      }
    }
  }

  /** Adding a path whose directory is on disk keeps the disk a tree. */
  lemma TreeAfterAdd(disk: map<string, Node>, path: string, n: Node)
    requires IsTree(disk) && path !in disk && ParentIsDir(disk, path)
    ensures IsTree(disk[path := n])
  {
    var after := disk[path := n];
    forall q | q in after && q != RootDir
      ensures ParentIsDir(after, q)
    {
      if q != path {
        assert ParentIsDir(disk, q);
      }
    }
  }

  /** Giving a file new bytes keeps the disk a tree. */
  lemma TreeAfterReplace(disk: map<string, Node>, path: string, data: seq<Byte>)
    requires IsTree(disk) && path in disk && disk[path].FileNode?
    ensures IsTree(disk[path := FileNode(data)])
  {
    var after := disk[path := FileNode(data)];
    forall q | q in after && q != RootDir
      ensures ParentIsDir(after, q)
    {
      assert ParentIsDir(disk, q);
    }
  }

  /** Removing a file, or a directory with nothing below it, keeps the disk a tree. */
  lemma TreeAfterRemove(disk: map<string, Node>, path: string)
    requires IsTree(disk) && path in disk
    requires disk[path].FileNode? || !HasEntries(disk, path)
    requires forall q :: q in disk && q != RootDir ==> RootDir + "/" <= q
    ensures IsTree(disk - {path})
  {
    forall q | q in disk - {path} && q != RootDir
      ensures ParentIsDir(disk - {path}, q)
    {
      ParentPrefix(q);
      assert ParentIsDir(disk, q);
      assert path + "/" <= q ==> HasEntries(disk, path);
    }
  }

  /** Every path on disk other than the root lies below it. */
  lemma DiskBelowRoot(s: ServerState)
    requires Consistent(s)
    ensures forall q :: q in s.disk && q != RootDir ==> RootDir + "/" <= q
  {
    forall q | q in s.disk && q != RootDir
      ensures RootDir + "/" <= q
    {
      assert Registered(s, q);
      var i :| i in s.inodeNames && s.inodeNames[i] == q;
    }
  }

  /** Nothing can be made inside a file: no path joined onto it has a directory on disk. */
  lemma NothingInsideFile(s: ServerState, parent: int, name: string)
    requires Consistent(s) && parent in s.inodeNames && s.inodeTypes[parent] == File
    ensures !ParentIsDir(s.disk, Join(s.inodeNames[parent], name))
  {
    var dir := s.inodeNames[parent];
    var d := Parent(Join(dir, name));
    ParentOfJoin(dir, name);
    if dir + "/" <= d && d in s.disk {
      AncestorIsDir(s.disk, dir, d);
    }
  }

  // ----- create -----

  lemma AllocatePreservesConsistent(s: ServerState, path: string, kind: Kind)
    requires Consistent(s)
    requires path !in s.disk && RootDir + "/" <= path
    requires ParentIsDir(s.disk, path)
    ensures Consistent(Allocate(s, path, kind))
  {
    var t := Allocate(s, path, kind);
    TreeAfterAdd(s.disk, path, EmptyNode(kind));
    forall p | p in t.disk
      ensures Registered(t, p)
    {
      if p == path {
        assert t.inodeNames[s.nextInode] == p;
      } else {
        assert Registered(s, p);
        var i :| i in s.inodeNames && s.inodeNames[i] == p;
        assert t.inodeNames[i] == p;
      }
    }
  }

  /** Create keeps the invariant, and the counter never goes back. */
  lemma CreatePreservesConsistent(s: ServerState, parent: int, name: string, createType: string)
    requires Consistent(s)
    ensures Consistent(CreateStep(s, parent, name, createType).0)
    ensures CreateStep(s, parent, name, createType).0.nextInode >= s.nextInode
  {
    if parent in s.inodeNames && ParseKind(createType).Some? {
      var path := Join(s.inodeNames[parent], name);
      if path !in s.disk && ParentIsDir(s.disk, path) {
        ParentBelowRoot(s, parent, name);
        AllocatePreservesConsistent(s, path, ParseKind(createType).value);
      }
    }
  }

  /**
   * Create succeeds exactly for a known parent, a type of "f" or "d" and
   * a path that does not exist yet but whose directory does; a file as
   * parent is always refused; otherwise nothing changes.
   */
  lemma CreateSucceedsIff(s: ServerState, parent: int, name: string, createType: string)
    requires Consistent(s)
    ensures CreateStep(s, parent, name, createType).1.Ok? <==>
      && parent in s.inodeNames
      && ParseKind(createType).Some?
      && Join(s.inodeNames[parent], name) !in s.disk
      && ParentIsDir(s.disk, Join(s.inodeNames[parent], name))
    ensures parent in s.inodeNames && s.inodeTypes[parent] == File ==>
      !CreateStep(s, parent, name, createType).1.Ok?
    ensures CreateStep(s, parent, name, createType).1 == NotFound <==> parent !in s.inodeNames
    ensures CreateStep(s, parent, name, createType).1 == Conflict <==>
      parent in s.inodeNames && ParseKind(createType).Some? && Join(s.inodeNames[parent], name) in s.disk
    ensures !CreateStep(s, parent, name, createType).1.Ok? ==> CreateStep(s, parent, name, createType).0 == s
  {
    if parent in s.inodeNames && s.inodeTypes[parent] == File {
      NothingInsideFile(s, parent, name);
    }
  }

  /**
   * A successful create answers with the old counter, which no inode
   * held, advances the counter by one, and adds exactly one entry to each
   * table: the joined path with the requested type.
   */
  lemma CreateFreshInode(s: ServerState, parent: int, name: string, createType: string)
    requires Consistent(s)
    requires CreateStep(s, parent, name, createType).1.Ok?
    ensures parent in s.inodeNames
    ensures var t := CreateStep(s, parent, name, createType).0;
      var reply := CreateStep(s, parent, name, createType).1.value;
      && s.nextInode !in s.inodeNames
      && AllDigits(reply) && ValueOf(reply) == s.nextInode
      && t.nextInode == s.nextInode + 1
      && t.inodeNames.Keys == s.inodeNames.Keys + {s.nextInode}
      && t.inodeTypes.Keys == s.inodeTypes.Keys + {s.nextInode}
      && t.inodeNames[s.nextInode] == Join(s.inodeNames[parent], name)
      && [Tag(t.inodeTypes[s.nextInode])] == createType
      && (forall i :: i in s.inodeNames ==> t.inodeNames[i] == s.inodeNames[i] && t.inodeTypes[i] == s.inodeTypes[i])
  {
    DecimalRoundTrip(s.nextInode);
  }

  // ----- unlink -----

  /** Unlink keeps the invariant; in particular the root is never removed. */
  lemma UnlinkPreservesConsistent(s: ServerState, parent: int, name: string, deleteType: string)
    requires Consistent(s)
    ensures Consistent(UnlinkStep(s, parent, name, deleteType).0)
  {
    var (t, r) := UnlinkStep(s, parent, name, deleteType);
    if r.Ok? {
      var path := Join(s.inodeNames[parent], name);
      ParentBelowRoot(s, parent, name);
      var victim := InodeOf(s, path);
      assert victim != RootInode;
      forall p | p in t.disk
        ensures Registered(t, p)
      {
        assert Registered(s, p);
        var i :| i in s.inodeNames && s.inodeNames[i] == p;
        assert i != victim && t.inodeNames[i] == p;
      }
      // a directory goes only when empty, so no remaining path lies in it
      DiskBelowRoot(s);
      assert s.disk[path].FileNode? || !HasEntries(s.disk, path);
      TreeAfterRemove(s.disk, path);
    }
  }

  /**
   * A successful unlink removes one inode other than the root, the one
   * recorded for the joined path and whose type is `deleteType`, from
   * both tables and its path from the disk; the counter stays.
   */
  lemma UnlinkRemovesOne(s: ServerState, parent: int, name: string, deleteType: string)
    requires Consistent(s)
    requires UnlinkStep(s, parent, name, deleteType).1.Ok?
    ensures parent in s.inodeNames
    ensures var t := UnlinkStep(s, parent, name, deleteType).0;
      var path := Join(s.inodeNames[parent], name);
      exists v :: v in s.inodeNames && v != RootInode
        && s.inodeNames[v] == path && [Tag(s.inodeTypes[v])] == deleteType
        && t.inodeNames == s.inodeNames - {v}
        && t.inodeTypes == s.inodeTypes - {v}
        && t.disk == s.disk - {path}
        && t.nextInode == s.nextInode
  {
    var path := Join(s.inodeNames[parent], name);
    ParentBelowRoot(s, parent, name);
    var v := InodeOf(s, path);
    assert v != RootInode;
  }

  /**
   * Unlink fails with 404 exactly for an unknown parent and with 400
   * exactly when the recorded type differs from `deleteType`; a failed
   * unlink changes nothing.
   */
  lemma UnlinkErrors(s: ServerState, parent: int, name: string, deleteType: string)
    requires Consistent(s)
    ensures UnlinkStep(s, parent, name, deleteType).1 == NotFound <==> parent !in s.inodeNames
    ensures UnlinkStep(s, parent, name, deleteType).1 == BadRequest <==>
      && parent in s.inodeNames
      && Registered(s, Join(s.inodeNames[parent], name))
      && [Tag(s.inodeTypes[InodeOf(s, Join(s.inodeNames[parent], name))])] != deleteType
    ensures !UnlinkStep(s, parent, name, deleteType).1.Ok? ==> UnlinkStep(s, parent, name, deleteType).0 == s
  {
  }

  /**
   * Unlink succeeds exactly when the parent is known, the joined path has
   * an inode whose recorded type is `deleteType`, and the path is not a
   * directory with entries; the two 500s are the missing inode
   * (`IndexError`) and the non-empty directory (`os.rmdir`).
   */
  lemma UnlinkSucceedsIff(s: ServerState, parent: int, name: string, deleteType: string)
    requires Consistent(s)
    ensures UnlinkStep(s, parent, name, deleteType).1.Ok? <==>
      && parent in s.inodeNames
      && Registered(s, Join(s.inodeNames[parent], name))
      && [Tag(s.inodeTypes[InodeOf(s, Join(s.inodeNames[parent], name))])] == deleteType
      && !(deleteType == "d" && HasEntries(s.disk, Join(s.inodeNames[parent], name)))
    ensures UnlinkStep(s, parent, name, deleteType).1 == ServerError <==>
      && parent in s.inodeNames
      && (|| !Registered(s, Join(s.inodeNames[parent], name))
          || ([Tag(s.inodeTypes[InodeOf(s, Join(s.inodeNames[parent], name))])] == deleteType
              && deleteType == "d" && HasEntries(s.disk, Join(s.inodeNames[parent], name))))
  {
  }

  // ----- create followed by lookup or unlink -----

  /** Looking up a name just created finds it, with its type and the inode create returned. */
  lemma LookupAfterCreate(s: ServerState, parent: int, name: string, createType: string)
    requires Consistent(s)
    requires CreateStep(s, parent, name, createType).1.Ok?
    ensures Consistent(CreateStep(s, parent, name, createType).0)
    ensures LookupReply(CreateStep(s, parent, name, createType).0, parent, name)
         == Ok(createType + CreateStep(s, parent, name, createType).1.value)
  {
    CreatePreservesConsistent(s, parent, name, createType);
    var t := CreateStep(s, parent, name, createType).0;
    var path := Join(s.inodeNames[parent], name);
    assert t.inodeNames[s.nextInode] == path;
    assert InodeOf(t, path) == s.nextInode;
  }

  /**
   * Unlinking, with the same type, a name just created restores both
   * tables and the disk; only the counter stays advanced, so the inode
   * is not handed out again. A new directory is empty, so it can be
   * removed again.
   */
  lemma UnlinkAfterCreate(s: ServerState, parent: int, name: string, createType: string)
    requires Consistent(s)
    requires CreateStep(s, parent, name, createType).1.Ok?
    ensures Consistent(CreateStep(s, parent, name, createType).0)
    ensures var t := CreateStep(s, parent, name, createType).0;
      var u := UnlinkStep(t, parent, name, createType);
      && u.1 == Ok("")
      && u.0.inodeNames == s.inodeNames
      && u.0.inodeTypes == s.inodeTypes
      && u.0.disk == s.disk
      && u.0.nextInode == s.nextInode + 1
  {
    CreatePreservesConsistent(s, parent, name, createType);
    var t := CreateStep(s, parent, name, createType).0;
    var path := Join(s.inodeNames[parent], name);
    assert t.inodeNames[s.nextInode] == path;
    assert InodeOf(t, path) == s.nextInode;
    NothingBelowAbsent(s.disk, path);
    assert !HasEntries(t.disk, path) by {
      forall q | q in t.disk && path + "/" <= q
        ensures q in s.disk
      {
        assert |q| > |path|;
      }
    }
    var u := UnlinkStep(t, parent, name, createType).0;
    assert u.inodeNames == s.inodeNames;
    assert u.inodeTypes == s.inodeTypes;
    assert u.disk == s.disk;
  }

  // ----- lookup -----

  /**
   * Lookup answers 404 exactly for an unknown inode or a path that does
   * not exist; otherwise the reply is a type tag followed by the decimal
   * inode recorded for the joined path, with that inode's type.
   */
  lemma LookupReplyMeaning(s: ServerState, inode: int, name: string)
    requires Consistent(s)
    ensures LookupReply(s, inode, name) == NotFound <==>
      inode !in s.inodeNames || Join(s.inodeNames[inode], name) !in s.disk
    ensures LookupReply(s, inode, name).Ok? ==>
      var body := LookupReply(s, inode, name).value;
      && 2 <= |body| && AllDigits(body[1..])
      && var i := ValueOf(body[1..]);
        && i in s.inodeNames
        && s.inodeNames[i] == Join(s.inodeNames[inode], name)
        && body[0] == Tag(s.inodeTypes[i])
  {
    var r := LookupReply(s, inode, name);
    if r.Ok? {
      var path := Join(s.inodeNames[inode], name);
      var i := InodeOf(s, path);
      assert r.value[1..] == Decimal(i);
      DecimalRoundTrip(i);
    }
  }

  // ----- list -----

  lemma {:induction false} EntriesOfAt(s: ServerState, dir: string, names: seq<string>, k: int)
    requires Indexed(s)
    requires forall j :: 0 <= j < |names| ==> Listed(s, dir, names[j])
    requires 0 <= k < |names|
    ensures EntriesOf(s, dir, names)[k] == EntryOf(s, dir, names[k])
  {
    if k < |names| - 1 {
      EntriesOfAt(s, dir, names[..|names| - 1], k);
    }
  }

  /** The listing body grows by one line per entry, in order. */
  lemma LinesOfPrefix(s: ServerState, dir: string, names: seq<string>, k: int)
    requires Indexed(s)
    requires forall j :: 0 <= j < |names| ==> Listed(s, dir, names[j])
    requires 0 <= k < |names|
    ensures Lines(EntriesOf(s, dir, names[..k + 1]))
         == Lines(EntriesOf(s, dir, names[..k])) + EntryLine(EntryOf(s, dir, names[k]))
  {
    assert names[..k + 1][..k] == names[..k];
    var es := EntriesOf(s, dir, names[..k + 1]);
    assert es[..|es| - 1] == EntriesOf(s, dir, names[..k]);
  }

  /**
   * A listing names each entry of the directory once, in `os.listdir`
   * order, with the inode recorded for its path and that inode's type.
   */
  lemma ListingEntries(s: ServerState, inode: int, listing: seq<string>)
    requires Consistent(s)
    requires inode in s.inodeTypes && s.inodeTypes[inode] == Dir
    requires IsListing(s.disk, s.inodeNames[inode], listing)
    ensures var dir := s.inodeNames[inode];
      var es := EntriesOf(s, dir, listing);
      && ListReply(s, inode, listing) == Ok(ListingText(es))
      && |es| == |listing|
      && forall k :: 0 <= k < |es| ==>
        && es[k].name == listing[k]
        && es[k].inode in s.inodeNames
        && s.inodeNames[es[k].inode] == Join(dir, listing[k])
        && s.inodeTypes[es[k].inode] == es[k].kind
  {
    var dir := s.inodeNames[inode];
    forall k | 0 <= k < |listing|
      ensures EntriesOf(s, dir, listing)[k] == EntryOf(s, dir, listing[k])
    {
      EntriesOfAt(s, dir, listing, k);
    }
  }

  lemma EntryLineHasOneNewline(e: Entry)
    requires '\n' !in e.name
    ensures Occurrences(EntryLine(e), '\n') == 1
  {
    var a := [Tag(e.kind)] + " ";
    var b := a + Decimal(e.inode);
    var c := b + " ";
    var d := c + e.name;
    assert EntryLine(e) == d + "\n";
    OccurrencesAppend([Tag(e.kind)], " ", '\n');
    OccurrencesAppend(a, Decimal(e.inode), '\n');
    DecimalHasNoNewline(e.inode);
    OccurrencesAppend(b, " ", '\n');
    OccurrencesAppend(c, e.name, '\n');
    OccurrencesAbsent(e.name, '\n');
    OccurrencesAppend(d, "\n", '\n');
  }

  lemma {:induction false} LinesHaveOneNewlineEach(es: seq<Entry>)
    requires forall k :: 0 <= k < |es| ==> '\n' !in es[k].name
    ensures Occurrences(Lines(es), '\n') == |es|
  {
    if es != [] {
      var last := es[|es| - 1];
      LinesHaveOneNewlineEach(es[..|es| - 1]);
      EntryLineHasOneNewline(last);
      OccurrencesAppend(Lines(es[..|es| - 1]), EntryLine(last), '\n');
    }
  }

  /**
   * When no entry name holds a line break, a listing body has exactly
   * one line for the count and one per entry.
   */
  lemma ListingLineCount(es: seq<Entry>)
    requires forall k :: 0 <= k < |es| ==> '\n' !in es[k].name
    ensures Occurrences(ListingText(es), '\n') == |es| + 1
  {
    var head := Decimal(|es|) + "\n";
    assert ListingText(es) == head + Lines(es);
    DecimalHasNoNewline(|es|);
    OccurrencesAppend(Decimal(|es|), "\n", '\n');
    LinesHaveOneNewlineEach(es);
    OccurrencesAppend(head, Lines(es), '\n');
  }

  // ----- write and read -----

  /** Replacing the bytes of a file keeps the invariant. */
  lemma ReplaceBytesPreservesConsistent(s: ServerState, path: string, data: seq<Byte>)
    requires Consistent(s)
    requires path in s.disk && s.disk[path].FileNode?
    ensures Consistent(s.(disk := s.disk[path := FileNode(data)]))
  {
    var t := s.(disk := s.disk[path := FileNode(data)]);
    assert t.disk.Keys == s.disk.Keys;
    forall p | p in t.disk
      ensures Registered(t, p)
    {
      assert Registered(s, p);
    }
    TreeAfterReplace(s.disk, path, data);
  }

  /** Write keeps the invariant and leaves the tables and the counter alone. */
  lemma WritePreservesConsistent(s: ServerState, inode: int, content: string)
    requires Consistent(s)
    ensures Consistent(WriteStep(s, inode, content).0)
    ensures var t := WriteStep(s, inode, content).0;
      t.inodeNames == s.inodeNames && t.inodeTypes == s.inodeTypes && t.nextInode == s.nextInode
  {
    if inode in s.inodeNames && s.inodeTypes[inode] == File {
      var path := s.inodeNames[inode];
      match Latin1(content)
      case None =>
        ReplaceBytesPreservesConsistent(s, path, []);
      case Some(data) =>
        ReplaceBytesPreservesConsistent(s, path, data);
    }
  }

  /**
   * Write succeeds exactly for a known file and content whose characters
   * all fit a byte.
   */
  lemma WriteSucceedsIff(s: ServerState, inode: int, content: string)
    requires Consistent(s)
    ensures WriteStep(s, inode, content).1.Ok? <==>
      && inode in s.inodeNames && s.inodeTypes[inode] == File
      && forall k :: 0 <= k < |content| ==> content[k] as int < 256
    ensures WriteStep(s, inode, content).1 == NotFound <==> inode !in s.inodeNames
  {
  }

  /**
   * After a successful write, read returns one byte per character of
   * the content, each the character's code, and read_size the length of
   * the content. After a write whose content does not fit in bytes, the
   * file reads back empty.
   */
  lemma WriteThenRead(s: ServerState, inode: int, content: string)
    requires Consistent(s)
    ensures Consistent(WriteStep(s, inode, content).0)
    ensures var (t, r) := WriteStep(s, inode, content);
      r.Ok? ==>
        && ReadSizeReply(t, inode) == Ok(Decimal(|content|))
        && ReadReply(t, inode).Ok?
        && |ReadReply(t, inode).value| == |content|
        && forall k :: 0 <= k < |content| ==> ReadReply(t, inode).value[k] as int == content[k] as int
    ensures var (t, r) := WriteStep(s, inode, content);
      r == ServerError ==> ReadReply(t, inode) == Ok([])
  {
    WritePreservesConsistent(s, inode, content);
    var (t, r) := WriteStep(s, inode, content);
    if inode in s.inodeNames && s.inodeTypes[inode] == File {
      var path := s.inodeNames[inode];
      assert t.inodeNames[inode] == path;
      match Latin1(content)
      case None =>
        assert t.disk[path] == FileNode([]);
      case Some(data) =>
        assert t.disk[path] == FileNode(data);
    }
  }

  // ----- the create of the source, as written -----

  /**
   * With a file as parent, the create of the source answers 500 but has
   * already recorded a new inode, whose path is not on disk: the tables
   * no longer match the disk. The corrected create refuses with 400 and
   * changes nothing.
   */
  lemma CreateUnderFileAsWritten(s: ServerState, parent: int, name: string, createType: string)
    requires Consistent(s)
    requires parent in s.inodeNames && s.inodeTypes[parent] == File
    requires createType == "f" || createType == "d"
    ensures var (t, r) := CreateAsWritten(s, parent, name, createType);
      && r == ServerError
      && t.nextInode == s.nextInode + 1
      && s.nextInode in t.inodeNames
      && t.inodeNames[s.nextInode] !in t.disk
      && !Consistent(t)
    ensures CreateStep(s, parent, name, createType) == (s, BadRequest)
  {
    NothingInsideFile(s, parent, name);
    // nothing lies inside a file, so the joined path is not on disk either
    DiskBelowRoot(s);
    JoinBelowRoot(s.inodeNames[parent], name);
  }

  /**
   * The corrected create answers as the source does except where the
   * source answers 500; there the source has recorded an inode for a
   * path that is not on disk, and the corrected create answers 400 with
   * nothing changed.
   */
  lemma CreateAsWrittenAgrees(s: ServerState, parent: int, name: string, createType: string)
    requires Consistent(s)
    ensures CreateAsWritten(s, parent, name, createType).1 != ServerError ==>
      CreateStep(s, parent, name, createType) == CreateAsWritten(s, parent, name, createType)
    ensures var (t, r) := CreateAsWritten(s, parent, name, createType);
      r == ServerError ==>
        && CreateStep(s, parent, name, createType) == (s, BadRequest)
        && t.nextInode == s.nextInode + 1
        && s.nextInode in t.inodeNames
        && t.inodeNames[s.nextInode] !in t.disk
        && !Consistent(t)
  {
  }

  /** A concrete case: the root, and one file "root/a.txt" as inode 1001. */
  lemma CreateUnderFileExample()
    ensures var s := ServerState(
        map[RootInode := RootDir, FirstInode := "root/a.txt"],
        map[RootInode := Dir, FirstInode := File],
        FirstInode + 1,
        map[RootDir := DirNode, "root/a.txt" := FileNode([])]);
      && Consistent(s)
      && CreateAsWritten(s, FirstInode, "b", "f").1 == ServerError
      && !Consistent(CreateAsWritten(s, FirstInode, "b", "f").0)
  {
    var s := ServerState(
        map[RootInode := RootDir, FirstInode := "root/a.txt"],
        map[RootInode := Dir, FirstInode := File],
        FirstInode + 1,
        map[RootDir := DirNode, "root/a.txt" := FileNode([])]);
    assert s.inodeNames[RootInode] == RootDir;
    assert s.inodeNames[FirstInode] == "root/a.txt";
    ParentOfJoin(RootDir, "a.txt");
    assert Join(RootDir, "a.txt") == "root/a.txt";
    assert ParentIsDir(s.disk, "root/a.txt");
    assert Consistent(s);
    assert Join("root/a.txt", "b") !in s.disk;
    CreateUnderFileAsWritten(s, FirstInode, "b", "f");
  }

  /**
   * A concrete case of a missing directory: with only the root, creating
   * "x/y" under it answers 500 and records "root/x/y", which is not on
   * disk because "root/x" does not exist.
   */
  lemma CreateInMissingDirExample()
    ensures var s := ServerState(map[RootInode := RootDir], map[RootInode := Dir], FirstInode, map[RootDir := DirNode]);
      && Consistent(s)
      && CreateAsWritten(s, RootInode, "x/y", "f").1 == ServerError
      && CreateAsWritten(s, RootInode, "x/y", "f").0.inodeNames[FirstInode] == "root/x/y"
      && !Consistent(CreateAsWritten(s, RootInode, "x/y", "f").0)
      && CreateStep(s, RootInode, "x/y", "f") == (s, BadRequest)
  {
    var s := ServerState(map[RootInode := RootDir], map[RootInode := Dir], FirstInode, map[RootDir := DirNode]);
    assert s.inodeNames[RootInode] == RootDir;
    assert Consistent(s);
    ParentOfJoin("root/x", "y");
    assert Join(RootDir, "x/y") == Join("root/x", "y") == "root/x/y";
    assert !ParentIsDir(s.disk, "root/x/y");
    CreateAsWrittenAgrees(s, RootInode, "x/y", "f");
  }
}
