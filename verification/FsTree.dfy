// The filesystem seen from outside: a finite map from inode numbers to named
// files and directories with their contents, and a current directory.  Every
// command is one step of that map, so runs of commands can be told on it.
module FsTree {
  import opened Wrappers
  import opened Bits
  import opened Bitmaps
  import opened FsLayout
  import opened FsInvariant
  import opened Fs

  datatype Node = Node(isDir: bool, parent: nat, name: seq<Byte>, data: seq<Byte>)

  datatype Files = Files(nodes: map<nat, Node>, cwd: nat)

  datatype Command =
    | DoCreate(name: seq<Byte>)
    | DoMkdir(name: seq<Byte>)
    | DoChdir(name: seq<Byte>)
    | DoWrite(name: seq<Byte>, data: seq<Byte>)
    | DoRemove(name: seq<Byte>)
    | Reboot

  ghost function NodeAt(d: seq<Sector>, n: Inode): Node
    requires IsDisk(d) && NodeOk(n) && n.size <= FILE_MAX_BYTES
  {
    Node(n.isDir, n.parent, n.name, Content(d, n))
  }

  // What a disk in good order shows.
  ghost function Seen(d: seq<Sector>, cwd: nat): Files
    requires IsDisk(d) && NodesOk(Inodes(d))
  {
    Files(map i: nat | i < MAX_FILES && Inodes(d)[i].used :: NodeAt(d, Inodes(d)[i]), cwd)
  }

  ghost predicate Named(f: Files, name: seq<Byte>, i: nat) {
    i in f.nodes && f.nodes[i].parent == f.cwd && f.nodes[i].name == name
  }

  // The one entry of the current directory with that name.
  ghost predicate Only(f: Files, name: seq<Byte>, i: nat) {
    Named(f, name, i) && forall j: nat :: Named(f, name, j) ==> j == i
  }

  // ---------- one command ----------

  ghost predicate Creates(f: Files, isDir: bool, name: seq<Byte>, r: Outcome, g: Files) {
    var fits := 0 < |name| <= NAME_MAX;
    var taken := exists j: nat :: Named(f, name, j);
    var full := forall j: nat | j < MAX_FILES :: j in f.nodes;
    if !fits then r == Err(NameTooLong) && g == f
    else if taken then r == Err(AlreadyExists) && g == f
    else if full then r == Err(TableFull) && g == f
    else
      r == Ok && exists i: nat ::
        i < MAX_FILES && i !in f.nodes && (forall j: nat | j < i :: j in f.nodes)
        && g == f.(nodes := f.nodes[i := Node(isDir, f.cwd, UpToZero(name), [])])
  }

  // A name that is accepted, although what it will be read as is empty or taken.
  ghost predicate Lost(f: Files, name: seq<Byte>) {
    && 0 < |name| <= NAME_MAX && (forall j: nat :: !Named(f, name, j))
    && (exists j: nat :: j < MAX_FILES && j !in f.nodes)
    && (UpToZero(name) == [] || exists j: nat :: Named(f, UpToZero(name), j))
  }

  ghost predicate Loses(f: Files, c: Command) {
    match c
    case DoCreate(name) => Lost(f, name)
    case DoMkdir(name) => Lost(f, name)
    case _ => false
  }

  // No run of the commands from here loses a name.
  ghost predicate KeepsNames(f: Files, commands: seq<Command>)
    decreases |commands|
  {
    commands == [] || (!Loses(f, commands[0])
                       && forall r, g :: Performs(f, commands[0], r, g) ==> KeepsNames(g, commands[1..]))
  }

  lemma {:induction false} NoNulKeepsNames(f: Files, commands: seq<Command>)
    requires forall c | c in commands && (c.DoCreate? || c.DoMkdir?) :: 0 !in c.name
    ensures KeepsNames(f, commands)
    decreases |commands|
  {
    hide Performs, Named, UpToZero;
    if commands != [] {
      var c := commands[0];
      if c.DoCreate? || c.DoMkdir? { NameReadsBack(c.name); }
      forall r, g | Performs(f, c, r, g) ensures KeepsNames(g, commands[1..]) { NoNulKeepsNames(g, commands[1..]); }
    }
  }

  ghost predicate Writes(f: Files, name: seq<Byte>, data: seq<Byte>, r: Outcome, g: Files) {
    if |data| > FILE_MAX_BYTES then r == Err(FileTooBig) && g == f
    else if forall j: nat :: !Named(f, name, j) then r == Err(NotFound) && g == f
    else
      exists i: nat ::
        Only(f, name, i)
        && if f.nodes[i].isDir then r == Err(IsADirectory) && g == f
           else r == Ok && g == f.(nodes := f.nodes[i := f.nodes[i].(data := data)])
  }

  ghost predicate Removes(f: Files, name: seq<Byte>, r: Outcome, g: Files) {
    if forall j: nat :: !Named(f, name, j) then r == Err(NotFound) && g == f
    else
      exists i: nat ::
        Only(f, name, i)
        && if exists c: nat :: c in f.nodes && f.nodes[c].parent == i then r == Err(NotEmpty) && g == f
           else r == Ok && i != ROOT_INODE && i != f.cwd && g == f.(nodes := f.nodes - {i})
  }

  ghost predicate Enters(f: Files, name: seq<Byte>, r: Outcome, g: Files) {
    if name == [SLASH] then r == Ok && g == f.(cwd := ROOT_INODE)
    else if name == [46, 46] then r == Ok && f.cwd in f.nodes && g == f.(cwd := f.nodes[f.cwd].parent)
    else if name == [46] then r == Ok && g == f
    else if forall j: nat :: !Named(f, name, j) then r == Err(NotFound) && g == f
    else
      exists i: nat ::
        Only(f, name, i)
        && if f.nodes[i].isDir then r == Ok && g == f.(cwd := i) else r == Err(NotADirectory) && g == f
  }

  ghost predicate Performs(f: Files, c: Command, r: Outcome, g: Files) {
    match c
    case DoCreate(name) => Creates(f, false, name, r, g)
    case DoMkdir(name) => Creates(f, true, name, r, g)
    case DoChdir(name) => Enters(f, name, r, g)
    case DoWrite(name, data) => Writes(f, name, data, r, g)
    case DoRemove(name) => Removes(f, name, r, g)
    case Reboot => r == Ok && g == f.(cwd := ROOT_INODE)
  }

  // ---------- from the disk to the map ----------

  lemma SeenNamed(d: seq<Sector>, cwd: nat, name: seq<Byte>, i: nat)
    requires IsDisk(d) && NodesOk(Inodes(d))
    ensures Named(Seen(d, cwd), name, i) <==> Entry(Inodes(d), cwd, name, i)
  {
    hide Inodes, Content, NodeOk;
  }

  lemma SeenOnly(d: seq<Sector>, cwd: nat, name: seq<Byte>, i: nat)
    requires IsDisk(d) && NodesOk(Inodes(d)) && SiblingsUnique(Inodes(d)) && Entry(Inodes(d), cwd, name, i)
    ensures Only(Seen(d, cwd), name, i)
  {
    hide Inodes, NodesOk, SiblingsUnique, Seen, Named;
    SeenNamed(d, cwd, name, i);
    forall j: nat | Named(Seen(d, cwd), name, j) ensures j == i {
      SeenNamed(d, cwd, name, j);
      EntryUnique(Inodes(d), cwd, name, i, j);
    }
  }

  lemma SeenNone(d: seq<Sector>, cwd: nat, name: seq<Byte>)
    requires IsDisk(d) && NodesOk(Inodes(d))
    ensures (forall j: nat :: !Named(Seen(d, cwd), name, j)) <==> forall j: nat :: !Entry(Inodes(d), cwd, name, j)
  {
    hide Inodes, NodesOk, Seen, Named;
    forall j: nat ensures Named(Seen(d, cwd), name, j) <==> Entry(Inodes(d), cwd, name, j) {
      SeenNamed(d, cwd, name, j);
    }
  }

  lemma SeenNode(d: seq<Sector>, cwd: nat, i: nat)
    requires IsDisk(d) && NodesOk(Inodes(d)) && i < MAX_FILES
    ensures NodeOk(Inodes(d)[i]) && (i in Seen(d, cwd).nodes <==> Inodes(d)[i].used)
    ensures Inodes(d)[i].used ==> Seen(d, cwd).nodes[i] == NodeAt(d, Inodes(d)[i])
  {
    hide Inodes, NodeAt, NodeOk;
  }

  lemma SeenShape(d: seq<Sector>, cwd: nat)
    requires IsDisk(d) && NodesOk(Inodes(d))
    ensures Seen(d, cwd).cwd == cwd && forall a | a in Seen(d, cwd).nodes :: a < MAX_FILES
    ensures forall a: nat | a < MAX_FILES :: a in Seen(d, cwd).nodes <==> Inodes(d)[a].used
  {
    hide Inodes, NodeAt, NodeOk;
  }

  lemma SameNode(d0: seq<Sector>, d1: seq<Sector>, i: nat, a: nat)
    requires OthersKept(d0, d1, i) && a < MAX_FILES && a != i
    ensures Inodes(d1)[a] == Inodes(d0)[a] && NodeOk(Inodes(d0)[a])
    ensures NodeAt(d1, Inodes(d1)[a]) == NodeAt(d0, Inodes(d0)[a])
  {
    hide Inodes, Content, NodeOk;
  }

  // One inode replaced, every other file as it was.
  lemma SeenChanged(d0: seq<Sector>, d1: seq<Sector>, cwd: nat, i: nat)
    requires OthersKept(d0, d1, i) && i < MAX_FILES
    ensures NodeOk(Inodes(d1)[i])
    ensures var f, n := Seen(d0, cwd), Inodes(d1)[i];
            Seen(d1, cwd) == f.(nodes := if n.used then f.nodes[i := NodeAt(d1, n)] else f.nodes - {i})
  {
    hide Inodes, Content, NodeAt, OthersKept, NodesOk, Seen;
    KeptGood(d0, d1, i);
    SeenShape(d0, cwd);
    SeenShape(d1, cwd);
    SeenNode(d1, cwd, i);
    forall a: nat | a < MAX_FILES && a != i ensures SameAt(Seen(d0, cwd).nodes, Seen(d1, cwd).nodes, a) {
      NodesAgree(d0, d1, cwd, i, a);
    }
    OneChanged(Seen(d0, cwd).nodes, Seen(d1, cwd).nodes, i);
  }

  ghost predicate SameAt(m: map<nat, Node>, m': map<nat, Node>, a: nat) {
    (a in m' <==> a in m) && (a in m ==> m'[a] == m[a])
  }

  lemma NodesAgree(d0: seq<Sector>, d1: seq<Sector>, cwd: nat, i: nat, a: nat)
    requires OthersKept(d0, d1, i) && a < MAX_FILES && a != i
    ensures SameAt(Seen(d0, cwd).nodes, Seen(d1, cwd).nodes, a)
  {
    hide Inodes, Content, NodeAt, OthersKept, NodesOk, Seen;
    KeptGood(d0, d1, i);
    SameNode(d0, d1, i, a);
    SeenNode(d0, cwd, a);
    SeenNode(d1, cwd, a);
  }

  lemma OneChanged(m: map<nat, Node>, m': map<nat, Node>, i: nat)
    requires forall a: nat | a < MAX_FILES && a != i :: SameAt(m, m', a)
    requires (forall a | a in m :: a < MAX_FILES) && forall a | a in m' :: a < MAX_FILES
    ensures m' == if i in m' then m[i := m'[i]] else m - {i}
  {
    var k := if i in m' then m[i := m'[i]] else m - {i};
    forall a: nat ensures (a in m' <==> a in k) && (a in k ==> m'[a] == k[a]) {
      if a != i && a < MAX_FILES { assert SameAt(m, m', a); }
    }
    assert m'.Keys == k.Keys;
  }

  lemma KeptGood(d0: seq<Sector>, d1: seq<Sector>, i: nat)
    requires OthersKept(d0, d1, i)
    ensures IsDisk(d0) && IsDisk(d1) && NodesOk(Inodes(d0)) && NodesOk(Inodes(d1))
  {
  }

  lemma SameFiles(d0: seq<Sector>, d1: seq<Sector>, i: nat, n: Inode)
    requires InodeStep(d0, d1, i, n) && NodesOk(Inodes(d0)) && NodesOk(Inodes(d1))
    ensures OthersKept(d0, d1, i)
  {
    hide Inodes;
    var t := Inodes(d0);
    forall a: nat | a < MAX_FILES && a != i
      ensures Inodes(d1)[a] == t[a] && Content(d1, t[a]) == Content(d0, t[a])
    {
      assert NodeOk(t[a]);
      ContentFrame(d0, d1, t[a], 12);
    }
  }

  lemma NewFileIsEmpty(d: seq<Sector>, isDir: bool, parent: nat, name: seq<Byte>)
    requires IsDisk(d) && NodeOk(NewNode(isDir, parent, name))
    ensures NodeAt(d, NewNode(isDir, parent, name)) == Node(isDir, parent, name, [])
  {
  }

  lemma CreateSeen(d0: seq<Sector>, d1: seq<Sector>, cwd: nat, name: seq<Byte>, isDir: bool, r: Outcome)
    requires IsDisk(d0) && IsDisk(d1) && NodesOk(Inodes(d0)) && NodesOk(Inodes(d1))
    requires FileSystem.AddedEntry(d0, d1, cwd, name, isDir, r)
    ensures Creates(Seen(d0, cwd), isDir, name, r, Seen(d1, cwd))
  {
    hide Inodes, NodesOk, NodeOk, InodeStep, Seen, Named, Entry, UpToZero;
    var t := Inodes(d0);
    SeenTaken(d0, cwd, name);
    SeenFull(d0, cwd);
    if r.Ok? {
      var i :| 0 <= i < MAX_FILES && !t[i].used && (forall j | 0 <= j < i :: t[j].used)
               && InodeStep(d0, d1, i, NewNode(isDir, cwd, UpToZero(name)));
      FileCreated(d0, d1, cwd, UpToZero(name), isDir, i);
    }
  }

  // A name is lost on the map exactly when it is on the disk.
  lemma LostSeen(d0: seq<Sector>, d1: seq<Sector>, cwd: nat, name: seq<Byte>, isDir: bool, r: Outcome)
    requires IsDisk(d0) && NodesOk(Inodes(d0)) && FileSystem.AddedEntry(d0, d1, cwd, name, isDir, r)
    ensures Lost(Seen(d0, cwd), name) <==> r.Ok? && !FileSystem.NameKept(Inodes(d0), cwd, name)
  {
    hide Inodes, NodesOk, NodeOk, InodeStep, Seen, Named, Entry, UpToZero;
    SeenTaken(d0, cwd, name);
    SeenTaken(d0, cwd, UpToZero(name));
    SeenFull(d0, cwd);
  }

  lemma SeenTaken(d: seq<Sector>, cwd: nat, name: seq<Byte>)
    requires IsDisk(d) && NodesOk(Inodes(d))
    ensures (exists j: nat :: Named(Seen(d, cwd), name, j)) <==> exists j :: Entry(Inodes(d), cwd, name, j)
  {
    hide Inodes, NodesOk, Seen, Named, Entry;
    SeenNone(d, cwd, name);
  }

  lemma SeenFull(d: seq<Sector>, cwd: nat)
    requires IsDisk(d) && NodesOk(Inodes(d))
    ensures (forall j: nat | j < MAX_FILES :: j in Seen(d, cwd).nodes)
            <==> forall j | 0 <= j < MAX_FILES :: Inodes(d)[j].used
  {
    hide Inodes, NodesOk, Seen;
    SeenShape(d, cwd);
  }

  lemma FileCreated(d0: seq<Sector>, d1: seq<Sector>, cwd: nat, name: seq<Byte>, isDir: bool, i: nat)
    requires IsDisk(d0) && IsDisk(d1) && NodesOk(Inodes(d0)) && NodesOk(Inodes(d1)) && i < MAX_FILES
    requires !Inodes(d0)[i].used && (forall j | 0 <= j < i :: Inodes(d0)[j].used)
    requires InodeStep(d0, d1, i, NewNode(isDir, cwd, name))
    ensures var f := Seen(d0, cwd);
            && i !in f.nodes && (forall j: nat | j < i :: j in f.nodes)
            && Seen(d1, cwd) == f.(nodes := f.nodes[i := Node(isDir, f.cwd, name, [])])
  {
    hide Inodes, NodesOk, NodeOk, NodeAt, InodeStep, Seen;
    SeenShape(d0, cwd);
    NewInode(d0, d1, i, NewNode(isDir, cwd, name));
    SameFiles(d0, d1, i, NewNode(isDir, cwd, name));
    SeenChanged(d0, d1, cwd, i);
    NewFileIsEmpty(d1, isDir, cwd, name);
  }

  lemma NewInode(d0: seq<Sector>, d1: seq<Sector>, i: nat, n: Inode)
    requires InodeStep(d0, d1, i, n) && NodesOk(Inodes(d1))
    ensures Inodes(d1)[i] == n && NodeOk(n)
  {
    hide Inodes, NodeOk;
  }

  lemma WritesTooBig(f: Files, name: seq<Byte>, data: seq<Byte>)
    requires |data| > FILE_MAX_BYTES
    ensures Writes(f, name, data, Err(FileTooBig), f)
  {
  }

  lemma WritesNothing(f: Files, name: seq<Byte>, data: seq<Byte>)
    requires |data| <= FILE_MAX_BYTES && forall j: nat :: !Named(f, name, j)
    ensures Writes(f, name, data, Err(NotFound), f)
  {
  }

  lemma WritesNoDir(f: Files, name: seq<Byte>, data: seq<Byte>, i: nat)
    requires |data| <= FILE_MAX_BYTES && (exists j: nat :: Named(f, name, j)) && Only(f, name, i) && i in f.nodes
             && f.nodes[i].isDir
    ensures Writes(f, name, data, Err(IsADirectory), f)
  {
    hide Only, Named;
  }

  lemma WritesNode(f: Files, name: seq<Byte>, data: seq<Byte>, i: nat)
    requires |data| <= FILE_MAX_BYTES && (exists j: nat :: Named(f, name, j)) && Only(f, name, i) && i in f.nodes
             && !f.nodes[i].isDir
    ensures Writes(f, name, data, Ok, f.(nodes := f.nodes[i := f.nodes[i].(data := data)]))
  {
    hide Only, Named;
  }

  lemma WriteSeen(d0: seq<Sector>, d1: seq<Sector>, cwd: nat, depth: seq<nat>, name: seq<Byte>, data: seq<Byte>,
                  r: Outcome)
    requires FsOk(d0, cwd, depth) && FsOk(d1, cwd, depth)
    requires FileSystem.Written(d0, d1, cwd, name, data, r)
    ensures Writes(Seen(d0, cwd), name, data, r, Seen(d1, cwd))
  {
    hide FsOk, Inodes, NodeOk, NodesOk, OthersKept, Named, Only, Seen, Content, Writes, FileSystem.FileHolds;
    FsGood(d0, cwd, depth);
    FsGood(d1, cwd, depth);
    var t, f := Inodes(d0), Seen(d0, cwd);
    SeenNone(d0, cwd, name);
    if r.Ok? {
      var i :| Entry(t, cwd, name, i) && FileSystem.FileHolds(d0, d1, i, data) && OthersKept(d0, d1, i);
      FileSystem.FileKind(d0, cwd, depth, name, data, i);
      FileWritten(d0, d1, cwd, depth, name, data, i);
      WritesNode(f, name, data, i);
    } else if r.error == IsADirectory {
      var i: nat :| Entry(t, cwd, name, i) && t[i].isDir;
      EntrySeen(d0, cwd, depth, name, i);
      WritesNoDir(f, name, data, i);
    } else if r.error == NotFound {
      WritesNothing(f, name, data);
    } else {
      WritesTooBig(f, name, data);
    }
  }

  lemma EntrySeen(d: seq<Sector>, cwd: nat, depth: seq<nat>, name: seq<Byte>, i: nat)
    requires FsOk(d, cwd, depth) && Entry(Inodes(d), cwd, name, i)
    ensures var f := Seen(d, cwd);
            && Only(f, name, i) && i in f.nodes && f.nodes[i].isDir == Inodes(d)[i].isDir
            && f.cwd == cwd
    ensures exists j: nat :: Named(Seen(d, cwd), name, j)
  {
    hide Inodes, Marked, Owns, IsTree, NodesOk, SiblingsUnique, NodeOk;
    SeenOnly(d, cwd, name, i);
    SeenNode(d, cwd, i);
    SeenShape(d, cwd);
  }

  lemma FileWritten(d0: seq<Sector>, d1: seq<Sector>, cwd: nat, depth: seq<nat>, name: seq<Byte>, data: seq<Byte>,
                    i: nat)
    requires FsOk(d0, cwd, depth) && FsOk(d1, cwd, depth) && Entry(Inodes(d0), cwd, name, i) && !Inodes(d0)[i].isDir
    requires FileSystem.FileHolds(d0, d1, i, data) && OthersKept(d0, d1, i)
    ensures var f := Seen(d0, cwd);
            && Only(f, name, i) && i in f.nodes && !f.nodes[i].isDir
            && Seen(d1, cwd) == f.(nodes := f.nodes[i := f.nodes[i].(data := data)])
    ensures exists j: nat :: Named(Seen(d0, cwd), name, j)
  {
    hide Inodes, Marked, Owns, IsTree, NodesOk, SiblingsUnique, NodeOk, OthersKept, Named, Only, Seen;
    EntrySeen(d0, cwd, depth, name, i);
    SeenNode(d0, cwd, i);
    SeenChanged(d0, d1, cwd, i);
  }

  lemma RemovesNothing(f: Files, name: seq<Byte>)
    requires forall j: nat :: !Named(f, name, j)
    ensures Removes(f, name, Err(NotFound), f)
  {
  }

  lemma RemovesNode(f: Files, name: seq<Byte>, i: nat)
    requires (exists j: nat :: Named(f, name, j)) && Only(f, name, i) && i != ROOT_INODE && i != f.cwd
    requires !exists c: nat :: c in f.nodes && f.nodes[c].parent == i
    ensures Removes(f, name, Ok, f.(nodes := f.nodes - {i}))
  {
    hide Only, Named;
  }

  lemma RefusesFull(f: Files, name: seq<Byte>)
    requires exists j: nat :: Named(f, name, j)
    requires exists i: nat :: Only(f, name, i) && exists c: nat :: c in f.nodes && f.nodes[c].parent == i
    ensures Removes(f, name, Err(NotEmpty), f)
  {
    hide Only, Named;
  }

  lemma RemoveSeen(d0: seq<Sector>, d1: seq<Sector>, cwd: nat, depth: seq<nat>, name: seq<Byte>, r: Outcome)
    requires FsOk(d0, cwd, depth) && FsOk(d1, cwd, depth)
    requires FileSystem.RemovedEntry(d0, d1, cwd, name, r)
    ensures Removes(Seen(d0, cwd), name, r, Seen(d1, cwd))
  {
    hide FsOk, Inodes, NodeOk, NodesOk, OthersKept, Named, Only, Seen, Removes, FileSystem.HasChild;
    FsGood(d0, cwd, depth);
    FsGood(d1, cwd, depth);
    SeenNone(d0, cwd, name);
    var f := Seen(d0, cwd);
    if r.Ok? {
      var i: nat :| Entry(Inodes(d0), cwd, name, i) && i != ROOT_INODE && i != cwd
                    && Inodes(d1) == Inodes(d0)[i := EmptyInode()] && OthersKept(d0, d1, i);
      FileRemoved(d0, d1, cwd, depth, name, i);
      RemovesNode(f, name, i);
    } else if r == Err(NotEmpty) {
      FullDir(d0, cwd, depth, name);
      RefusesFull(f, name);
    } else {
      RemovesNothing(f, name);
    }
  }

  lemma FullDir(d: seq<Sector>, cwd: nat, depth: seq<nat>, name: seq<Byte>)
    requires FsOk(d, cwd, depth)
    requires exists i: nat :: Entry(Inodes(d), cwd, name, i) && Inodes(d)[i].isDir && FileSystem.HasChild(Inodes(d), i)
    ensures var f := Seen(d, cwd);
            exists i: nat :: Only(f, name, i) && exists c: nat :: c in f.nodes && f.nodes[c].parent == i
    ensures exists j: nat :: Named(Seen(d, cwd), name, j)
  {
    hide FsOk, Inodes, NodeOk, NodesOk, Named, Only, Seen, FileSystem.HasChild;
    FsGood(d, cwd, depth);
    var i: nat :| Entry(Inodes(d), cwd, name, i) && Inodes(d)[i].isDir && FileSystem.HasChild(Inodes(d), i);
    EntrySeen(d, cwd, depth, name, i);
    SeenChild(d, cwd, i);
  }

  lemma FileRemoved(d0: seq<Sector>, d1: seq<Sector>, cwd: nat, depth: seq<nat>, name: seq<Byte>, i: nat)
    requires FsOk(d0, cwd, depth) && FsOk(d1, cwd, depth) && Entry(Inodes(d0), cwd, name, i) && i != ROOT_INODE
    requires Inodes(d1) == Inodes(d0)[i := EmptyInode()] && OthersKept(d0, d1, i)
    ensures var f := Seen(d0, cwd);
            && Only(f, name, i) && i in f.nodes && f.cwd == cwd && Seen(d1, cwd) == f.(nodes := f.nodes - {i})
            && !exists c: nat :: c in f.nodes && f.nodes[c].parent == i
    ensures exists j: nat :: Named(Seen(d0, cwd), name, j)
  {
    hide Inodes, Marked, Owns, IsTree, NodesOk, SiblingsUnique, NodeOk, OthersKept, Named, Only, Seen;
    EntrySeen(d0, cwd, depth, name, i);
    SeenChanged(d0, d1, cwd, i);
    SeenChild(d0, cwd, i);
    NoChildLeft(d0, d1, cwd, depth, i);
  }

  lemma SeenChild(d: seq<Sector>, cwd: nat, i: nat)
    requires IsDisk(d) && NodesOk(Inodes(d))
    ensures FileSystem.HasChild(Inodes(d), i) <==>
            exists c: nat :: c in Seen(d, cwd).nodes && Seen(d, cwd).nodes[c].parent == i
  {
    hide Inodes, NodeOk, Content;
    var f, t := Seen(d, cwd), Inodes(d);
    if FileSystem.HasChild(t, i) {
      var c :| 0 <= c < MAX_FILES && t[c].used && t[c].parent == i;
      assert c in f.nodes && f.nodes[c].parent == i;
    }
  }

  // What was removed had nothing below it: the parent of a used inode is used.
  lemma NoChildLeft(d0: seq<Sector>, d1: seq<Sector>, cwd: nat, depth: seq<nat>, i: nat)
    requires FsOk(d0, cwd, depth) && FsOk(d1, cwd, depth) && 0 < i < MAX_FILES && Inodes(d0)[i].used
    requires Inodes(d1) == Inodes(d0)[i := EmptyInode()]
    ensures !FileSystem.HasChild(Inodes(d0), i)
  {
    hide Inodes, NodesOk, IsTree, FsOk;
    FsGood(d0, cwd, depth);
    FsGood(d1, cwd, depth);
    FsHasTree(d0, cwd, depth);
    FsHasTree(d1, cwd, depth);
    TreeWithoutNode(Inodes(d0), Inodes(d1), depth, i);
  }

  lemma FsHasTree(d: seq<Sector>, cwd: nat, depth: seq<nat>)
    requires FsOk(d, cwd, depth)
    ensures IsDisk(d) && IsTree(Inodes(d), depth)
  {
    hide Inodes, Marked, Owns, NodesOk, SiblingsUnique, IsTree;
  }

  lemma TreeWithoutNode(t: seq<Inode>, t': seq<Inode>, depth: seq<nat>, i: nat)
    requires IsTree(t, depth) && IsTree(t', depth) && 0 < i < MAX_FILES && t' == t[i := EmptyInode()]
    ensures forall c | 0 <= c < MAX_FILES && t[c].used :: t[c].parent != i
  {
    forall c | 0 <= c < MAX_FILES && t[c].used ensures t[c].parent != i {
      if c != i { assert t'[c] == t[c]; }
    }
  }

  lemma FsGood(d: seq<Sector>, cwd: nat, depth: seq<nat>)
    requires FsOk(d, cwd, depth)
    ensures IsDisk(d) && NodesOk(Inodes(d)) && |Inodes(d)| == MAX_FILES && cwd < MAX_FILES && Inodes(d)[cwd].used
  {
    hide Inodes, Marked, Owns, NodesOk, SiblingsUnique;
  }

  lemma EnterSeen(d: seq<Sector>, from: nat, to: nat, depth: seq<nat>, name: seq<Byte>, r: Outcome)
    requires FsOk(d, from, depth) && from < MAX_FILES && FileSystem.ChangedDir(Inodes(d), from, to, name, r)
    ensures Enters(Seen(d, from), name, r, Seen(d, to))
  {
    hide FsOk, Inodes, NodeOk, NodesOk, Named, Only, Seen, Content;
    FsGood(d, from, depth);
    var t := Inodes(d);
    SeenNone(d, from, name);
    SeenAnywhere(d, from, to);
    SeenNode(d, from, from);
    if name == [SLASH] || name == [46, 46] || name == [46] {
    } else if r.Ok? {
      EntrySeen(d, from, depth, name, to);
    } else if r.error == NotADirectory {
      var i: nat :| Entry(t, from, name, i) && !t[i].isDir;
      EntrySeen(d, from, depth, name, i);
    }
  }

  lemma SeenAnywhere(d: seq<Sector>, from: nat, to: nat)
    requires IsDisk(d) && NodesOk(Inodes(d))
    ensures Seen(d, to) == Seen(d, from).(cwd := to) && Seen(d, from).cwd == from
  {
    hide Inodes, NodeOk, NodeAt;
  }

  // ---------- runs ----------

  ghost predicate Traced(commands: seq<Command>, results: seq<Outcome>, trace: seq<Files>) {
    && |results| == |commands| && |trace| == |commands| + 1
    && forall k | 0 <= k < |commands| :: Performs(trace[k], commands[k], results[k], trace[k + 1])
  }

  // Any run of commands from a mounted disk, reboots included, that never loses a name keeps the whole
  // invariant, so that never more than 768 of the 2000 blocks are in use, and shows the files and
  // answers of a run on the map.
  method Run(fs: FileSystem, commands: seq<Command>) returns (results: seq<Outcome>, ghost trace: seq<Files>)
    requires fs.Valid() && KeepsNames(Seen(fs.disk[..], fs.cwd), commands)
    modifies fs, fs.disk
    ensures fs.Valid() && |Marked(fs.disk[..])| == BlocksNeeded(fs.Table(), MAX_FILES) <= SLOTS
    ensures Traced(commands, results, trace)
    ensures trace[0] == old(Seen(fs.disk[..], fs.cwd)) && trace[|commands|] == Seen(fs.disk[..], fs.cwd)
  {
    hide Inodes, Marked, Owns, IsTree, NodesOk, SiblingsUnique, Seen, Performs, Loses;
    results := [];
    trace := [Seen(fs.disk[..], fs.cwd)];
    for i := 0 to |commands|
      invariant fs.Valid() && |results| == i && |trace| == i + 1
      invariant trace[0] == old(Seen(fs.disk[..], fs.cwd)) && trace[i] == Seen(fs.disk[..], fs.cwd)
      invariant forall k | 0 <= k < i :: Performs(trace[k], commands[k], results[k], trace[k + 1])
      invariant KeepsNames(trace[i], commands[i..])
    {
      assert commands[i..][1..] == commands[i + 1..];
      var r := Perform(fs, commands[i]);
      results := results + [r];
      trace := trace + [Seen(fs.disk[..], fs.cwd)];
    }
    BlocksBound(fs.Table(), Marked(fs.disk[..]));
    UsageIsDemand(fs.Table(), Marked(fs.disk[..]));
  }

  method Perform(fs: FileSystem, c: Command) returns (r: Outcome)
    requires fs.Valid() && !Loses(Seen(fs.disk[..], fs.cwd), c)
    modifies fs, fs.disk
    ensures fs.Valid() && Performs(old(Seen(fs.disk[..], fs.cwd)), c, r, Seen(fs.disk[..], fs.cwd))
  {
    hide FsOk, Inodes, NodesOk, Seen, Creates, Writes, Removes, Enters, Lost, FileSystem.AddedEntry, FileSystem.Written,
         FileSystem.RemovedEntry, FileSystem.ChangedDir;
    ghost var d0, cwd0 := fs.disk[..], fs.cwd;
    FsGood(d0, cwd0, fs.depth);
    match c {
      case DoCreate(name) =>
        r := fs.Create(name);
        LostSeen(d0, fs.disk[..], cwd0, name, false, r);
        FsGood(fs.disk[..], fs.cwd, fs.depth);
        CreateSeen(d0, fs.disk[..], cwd0, name, false, r);
      case DoMkdir(name) =>
        r := fs.Mkdir(name);
        LostSeen(d0, fs.disk[..], cwd0, name, true, r);
        FsGood(fs.disk[..], fs.cwd, fs.depth);
        CreateSeen(d0, fs.disk[..], cwd0, name, true, r);
      case DoChdir(name) =>
        ghost var depth0 := fs.depth;
        r := fs.Chdir(name);
        EnterSeen(d0, cwd0, fs.cwd, depth0, name, r);
      case DoWrite(name, data) =>
        r := fs.Write(name, data);
        WriteSeen(d0, fs.disk[..], cwd0, fs.depth, name, data, r);
      case DoRemove(name) =>
        r := fs.Remove(name);
        RemoveSeen(d0, fs.disk[..], cwd0, fs.depth, name, r);
      case Reboot =>
        HasMagic(d0, cwd0, fs.depth);
        RootIsHome(d0, cwd0, fs.depth);
        fs.Mount(fs.depth);
        SeenAnywhere(d0, cwd0, ROOT_INODE);
        r := Ok;
    }
    FsGood(fs.disk[..], fs.cwd, fs.depth);
  }

  lemma HasMagic(d: seq<Sector>, cwd: nat, depth: seq<nat>)
    requires FsOk(d, cwd, depth)
    ensures IsDisk(d) && FromLe(d[0][..4]) == MAGIC
  {
    hide TableOk, Inodes, Marked;
  }

  lemma RootIsHome(d: seq<Sector>, cwd: nat, depth: seq<nat>)
    requires FsOk(d, cwd, depth)
    ensures FsOk(d, ROOT_INODE, depth)
  {
    hide Owns, NodesOk, SiblingsUnique;
  }

  // Step k puts `data` into file i: it creates it empty, or writes it.
  ghost predicate Fills(f: Files, c: Command, r: Outcome, i: nat, data: seq<Byte>) {
    r == Ok && match c
      case DoCreate(_) => i !in f.nodes && data == []
      case DoWrite(name, bytes) => Only(f, name, i) && data == bytes
      case _ => false
  }

  // A step leaves the content of a file alone unless it fills it.
  lemma StepKeepsData(f: Files, c: Command, r: Outcome, g: Files, i: nat)
    requires Performs(f, c, r, g) && i in g.nodes && !g.nodes[i].isDir
    ensures Fills(f, c, r, i, g.nodes[i].data)
            || (i in f.nodes && f.nodes[i] == g.nodes[i] && forall data :: !Fills(f, c, r, i, data))
  {
  }

  // Over any run, a file that is there at the end holds what the last step to fill it put in, or, if no
  // step did, what it held at first.
  lemma {:induction false} LastFill(commands: seq<Command>, results: seq<Outcome>, trace: seq<Files>, n: nat, i: nat)
    returns (k: nat)
    requires Traced(commands, results, trace) && n <= |commands|
    requires i in trace[n].nodes && !trace[n].nodes[i].isDir
    ensures k <= n && forall j | k <= j <= n :: i in trace[j].nodes && trace[j].nodes[i] == trace[n].nodes[i]
    ensures k > 0 ==> Fills(trace[k - 1], commands[k - 1], results[k - 1], i, trace[n].nodes[i].data)
    ensures forall j, data | k <= j < n :: !Fills(trace[j], commands[j], results[j], i, data)
  {
    hide Performs, Fills;
    k := n;
    if n > 0 {
      StepKeepsData(trace[n - 1], commands[n - 1], results[n - 1], trace[n], i);
      if !Fills(trace[n - 1], commands[n - 1], results[n - 1], i, trace[n].nodes[i].data) {
        k := LastFill(commands, results, trace, n - 1, i);
      }
    }
  }
}
