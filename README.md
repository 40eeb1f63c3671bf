# Inode table of the NFS backing server

The repository pairs a Linux kernel filesystem stub with a small HTTP
server, `nfs-server/nfs.py`. The server exposes the directory tree under
`root` through inode numbers. It keeps three pieces of module-level state:

- `inode2names`, a table from inode number to path;
- `inode2type`, a table from inode number to `'f'` (file) or `'d'` (directory);
- `next_inode`, the number the next new node receives.

At start-up the root gets inode 1000. Every path that `os.walk` reports
then gets the next number, starting at 1001. Each HTTP handler works on
these tables together with the files on disk:

- `lookup` resolves a name inside a directory;
- `list` prints a directory;
- `create` and `unlink` add and remove nodes;
- `read_size` and `read` report a file;
- `write` replaces a file's contents.

The model is split into four modules:

- `Text` (`text.dfy`): Python's `str()` of a non-negative integer, the
  digit parser that inverts it, and newline counting.
- `InodeTable` (`inode_table.dfy`):
  - the state as a value, `ServerState`: both tables, the counter, and the
    disk as a map from path to node;
  - the invariant `Consistent` that every handler keeps;
  - one specification function per handler, giving the reply and the new state.
- `InodeTableProperties` (`properties.dfy`): lemmas about those functions.
  They cover invariant preservation, exact success and error conditions,
  fresh inode allocation, and round trips such as create-then-lookup,
  create-then-unlink and write-then-read.
- `NfsServer` (`server.dfy`): the server as a `class Server`.
  - Its fields are the two tables, the counter and the disk.
  - Its constructor is the start-up population loop.
  - Each handler is a method proved against its specification function and
    keeping `Valid()`.

Replies are a `Reply` datatype:

| constructor | HTTP status |
|---|---|
| `Ok` | 200 |
| `NotFound` | 404 |
| `BadRequest` | 400 |
| `Conflict` | 409 |
| `ServerError` | 500, an exception the handler does not catch |

Four uncaught Python exceptions become `ServerError` outcomes:

- the `IndexError` of `inode_from_name` when no entry matches;
- `os.rmdir` on a non-empty directory;
- `bytes()` on a character code above 255;
- `NotADirectoryError` or `FileNotFoundError` from `open`/`os.mkdir` in
  `create`, when the directory the new path goes in is a file or does not
  exist. Only the as-written create, `InodeTable.CreateAsWritten`, reaches
  this case; see "## Findings".

The disk is kept a tree: every path other than `root` lies in a directory
that is itself on disk (`InodeTable.IsTree`, part of the invariant).

## Model

| member | source | states |
|---|---|---|
| `Text.Decimal` | nfs-server/nfs.py:105 | the text `str()` gives for an inode number, count or length is a nonempty string of digits with no leading zero (it starts with '0' exactly when the number is 0) |
| `Text.DecimalRoundTrip` | nfs-server/nfs.py:105 | reading the decimal digits of a reply back gives the number that was sent |
| `Text.DecimalInjective` | nfs-server/nfs.py:51 | two different inode numbers never print as the same reply text |
| `Text.DecimalHasNoNewline` | nfs-server/nfs.py:67 | the count that opens a listing fits on its own line |
| `InodeTable.ParseKind` | nfs-server/nfs.py:84-85 | a node type is accepted exactly when it is "f" or "d", and the accepted kind's tag is the string given |
| `InodeTable.Latin1` | nfs-server/nfs.py:163-164 | the content can be turned into bytes exactly when every character code is below 256; the bytes then have the same length and equal the codes one by one |
| `NfsServer.Server.constructor` | nfs-server/nfs.py:5-28 | start-up: root is 1000 as a directory, walked path k gets inode 1001+k with its on-disk kind, the numbers in use are exactly 1000 up to the counter, and the table invariant holds |
| `NfsServer.WalkStateConsistent` | nfs-server/nfs.py:5-28 | the tables the start-up loop builds from a walk (root at 1000, walked path k at 1001+k with its on-disk kind) satisfy the table invariant |
| `NfsServer.Server.InodeFromName` | nfs-server/nfs.py:35-38 | on any tables whose inode numbers lie between the root's and the counter, finds an inode exactly when the path is recorded; the inode found names that path and is the first one in table order (the least number), which matters when the as-written create has left two inodes for one path; when no path has two inodes it is the one the table invariant names |
| `NfsServer.Server.Lookup` | nfs-server/nfs.py:40-53 | the reply equals the lookup specification: 404 for an unknown inode or a missing path, otherwise the type tag followed by the inode of the path |
| `InodeTableProperties.LookupReplyMeaning` | nfs-server/nfs.py:42-53 | lookup fails exactly when the directory inode is unknown or the joined path is not on disk; a success names an inode whose recorded path is the joined path and whose recorded type is the tag sent |
| `NfsServer.Server.ListDir` | nfs-server/nfs.py:55-75 | the reply equals the listing specification: 404 for an unknown inode, 400 for a file, otherwise the listing text of the directory's entries |
| `NfsServer.Server.ListingBody` | nfs-server/nfs.py:65-75 | the reply is the entry count line followed by one line per entry, in `os.listdir` order (the loop gathers the entry lines and the count line is put in front of them, which gives the same text as appending to it) |
| `NfsServer.Server.EntryText` | nfs-server/nfs.py:70-73 | one loop step yields the entry line of the specification: the entry's type tag, the inode recorded for the joined path, and the name |
| `InodeTableProperties.ListingEntries` | nfs-server/nfs.py:65-73 | for a directory, the reply is the listing text with one entry per name `os.listdir` gave, in that order, each carrying the name and the inode recorded for the joined path |
| `InodeTableProperties.ListingLineCount` | nfs-server/nfs.py:67-73 | when no entry name contains a line break, a listing of n entries has exactly n + 1 lines, so the count line tells the client how many lines follow |
| `NfsServer.Server.Create` | nfs-server/nfs.py:77-105 | the reply and new state equal the corrected create specification, which refuses with 400 a path whose directory is missing or is a file, and the table invariant, the disk being a tree included, is kept |
| `InodeTableProperties.CreatePreservesConsistent` | nfs-server/nfs.py:77-105 | create keeps the tables consistent with each other and with the disk, keeps the disk a tree, and never lowers the counter |
| `InodeTableProperties.CreateSucceedsIff` | nfs-server/nfs.py:81-91 | create succeeds exactly when the parent is known, the type is "f" or "d", the path is free and the directory it goes in is on disk as a directory; a file as parent is always refused; 404 exactly when the parent is unknown; 409 exactly when the path exists; every failure leaves the state unchanged |
| `InodeTableProperties.CreateFreshInode` | nfs-server/nfs.py:93-105 | a successful create hands out the old counter value, which was unused; the reply reads back as that number; the counter goes up by one; exactly that inode is added, with the new path and type; every other entry is unchanged |
| `InodeTableProperties.LookupAfterCreate` | nfs-server/nfs.py:93-97 | after a successful create, looking the name up in the same parent replies with the created type followed by the inode that create returned |
| `NfsServer.Server.Unlink` | nfs-server/nfs.py:107-128 | the reply and new state equal the unlink specification, and the table invariant is kept |
| `InodeTableProperties.UnlinkPreservesConsistent` | nfs-server/nfs.py:107-128 | unlink keeps the tables consistent with each other and with the disk, and keeps the disk a tree |
| `InodeTableProperties.UnlinkRemovesOne` | nfs-server/nfs.py:112-126 | a successful unlink removes exactly one inode, never the root: the one whose path is the joined name; its path leaves the disk, every other entry and path stays, and the counter is unchanged |
| `InodeTableProperties.UnlinkErrors` | nfs-server/nfs.py:109-118 | 404 exactly when the parent is unknown; 400 exactly when the recorded type differs from the requested one; every failure leaves the state unchanged |
| `InodeTableProperties.UnlinkSucceedsIff` | nfs-server/nfs.py:107-128 | unlink succeeds exactly when the parent is known, the joined path has an inode whose recorded type is the one asked for, and it is not a directory with entries; it answers 500 exactly when the path has no inode (`IndexError`) or is a matching directory with entries (`os.rmdir`) |
| `InodeTableProperties.UnlinkAfterCreate` | nfs-server/nfs.py:93-126 | unlinking what create just made, with the same type, succeeds and restores both tables and the disk, for files and directories alike; only the counter stays advanced, so inode numbers are never reused |
| `NfsServer.Server.ReadSize` | nfs-server/nfs.py:130-140 | the reply equals the read_size specification: 404, 400 for a directory, or the decimal length of the file's bytes |
| `NfsServer.Server.Read` | nfs-server/nfs.py:142-152 | the reply equals the read specification: 404, 400 for a directory, or the file's bytes |
| `NfsServer.Server.Write` | nfs-server/nfs.py:154-166 | the reply and new state equal the write specification, where the file is emptied before its bytes are made, and the table invariant is kept |
| `InodeTableProperties.WritePreservesConsistent` | nfs-server/nfs.py:154-166 | write keeps the invariant and leaves both tables and the counter untouched |
| `InodeTableProperties.WriteSucceedsIff` | nfs-server/nfs.py:156-164 | write succeeds exactly when the inode is a known file and every character code is below 256; 404 exactly when the inode is unknown |
| `InodeTableProperties.WriteThenRead` | nfs-server/nfs.py:138-164 | after a successful write, read_size replies with the content's length and read with the content's codes; after a write refused for a wide character, the file reads back empty |
| `InodeTable.CreateAsWritten` | nfs-server/nfs.py:77-105 | create as the source runs it, on the abstract disk: 404, 400 and 409 change nothing; it answers 500 exactly when the joined path is new but the directory it would go in is missing or is a file, and then the new inode is recorded with its type and the counter advances while the disk stays as it was |
| `InodeTableProperties.CreateUnderFileAsWritten` | nfs-server/nfs.py:87-103 | create as written, with a file as parent and any name, replies 500 yet records a new inode and advances the counter for a path that never reaches the disk, so the tables no longer match the disk; the corrected create refuses with 400 and changes nothing |
| `InodeTableProperties.CreateAsWrittenAgrees` | nfs-server/nfs.py:81-103 | create as written and the corrected create agree on reply and state whenever the source does not answer 500; when it does, the source has recorded an inode for a path not on disk and the corrected create answers 400 with nothing changed |
| `InodeTableProperties.CreateUnderFileExample` | nfs-server/nfs.py:87-103 | a concrete state with the file root/a.txt at inode 1001, where creating b under 1001 shows the dangling inode |
| `InodeTableProperties.CreateInMissingDirExample` | nfs-server/nfs.py:87-103 | a concrete state holding only the root, where creating x/y under it answers 500 and records root/x/y although root/x does not exist; the corrected create answers 400 |

## Left out

- HTTP routing, query-parameter decoding and `Response` wrapping are not modelled. Handlers take already-decoded arguments and return a `Reply`. One visible effect of the wrapping: `unlink` returns the plain string `""` (nfs-server/nfs.py:128), which the framework sends as the JSON body `""` (two quote characters), whereas `write` sends an empty `Response`. Both are `Ok("")` in the model.
- `create` and `unlink` return their `HTTPException` instead of raising it, so the framework answers 200 with the exception serialised as JSON. The model reports these as 404/400/409 outcomes, the evident intent of the code. The state effect, nothing changed, is the same either way.
- File-system I/O is replaced by an abstract disk, a map from path to node. Permission errors, a full disk and changes made to `root` by other processes are not modelled.
- Names the file system refuses are not modelled: the abstract disk accepts any string as a path. Two examples are a NUL character and a path component over 255 bytes. For such names the source answers 500 where the model answers otherwise. `exists()` raises on an over-long name, so lookup and create answer 500. A NUL name makes `exists()` return False, so create as written records the inode and advances the counter before `open` raises: the defect under "## Findings", reached another way. The directory check of the corrected create does not stop a NUL name.
- Path construction is modelled as `dir + "/" + name` for both `pathlib.Path(f'{dir}/{name}')` and `os.path.join`. Their normalisation is not modelled: an empty name, `.`, `..`, repeated or trailing `/`, and an absolute name. A name with an inner `/` is modelled: it names a path further down, and create refuses it when the directory part is missing.
- The order of `os.walk` is a constructor parameter (`IsWalk`): each path once, all paths below the root. Its directories-before-files order within each directory is not fixed.
- The order of `os.listdir` is a parameter of `ListDir` (`IsListing`).
- The two `print` calls after start-up (lines 30-31) are console output and are left out.
- `Lookup`, `ListDir`, `Unlink`: the `IndexError` of `inode_from_name` is modelled (as `ServerError` in unlink), but under the invariant it cannot occur in lookup or list. Those two therefore use the inode from the invariant.
- Concurrency is not modelled. The framework may run these synchronous handlers on several threads, which could race on `next_inode` and the tables. The model is one request at a time.
- Python integers are unbounded, and so are the model's inode numbers. No width is imposed.
- `InodeTableProperties.ListingLineCount`: stated only for entry names without a line break. Linux allows `\n` in a file name, and such a name makes the listing hold more lines than its count line says. The listing format has no escape for it, so a client cannot tell the two apart.
- `NfsServer.Server.constructor` requires `root` to exist as a directory on a disk that is a tree (`IsWalk`). The source also starts when `root` is missing: `os.walk` then yields nothing, and inode 1000 names a path that is not on disk. That start-up state is not modelled.
- The kernel-module side (`main.c`, `header.h`) is not part of this model: it registers a filesystem type and has stub handlers that do not call the server. The client-side name and content encoding is not part of this model either.

## Findings

| source | as written | input that shows it | evidently intended | confidence | as-written member | corrected member |
|---|---|---|---|---|---|---|
| nfs-server/nfs.py:87-103 | `create` does not check that the directory the new path goes in exists and is a directory. `Path(...).exists()` is False below a file or a missing directory, so the handler records the new inode and advances the counter, and then `open`/`os.mkdir` raise `NotADirectoryError` or `FileNotFoundError`: the reply is 500 and a table entry names a path that does not exist | tables {1000: root (d), 1001: root/a.txt (f)}; create with parent_inode=1001, name=b, create_type=f (or, with only the root, parent_inode=1000, name=x/y) | refuse such a path with 400 before changing anything, so the tables keep matching the disk (on the abstract disk; a name with a NUL character reaches the same record-before-I/O defect, and the directory check alone does not prevent it, see "## Left out") | medium, not executed | `InodeTableProperties.CreateUnderFileAsWritten` | `NfsServer.Server.Create` |
