// An editing session on a file of the filesystem: opened by name, edited by a
// run of keys, and written back by each save.
module EditorOnDisk {
  import opened Bits
  import opened FsLayout
  import opened FsInvariant
  import opened Fs
  import opened EditorText
  import opened EditorKeys
  import opened Editor

  // The plain file `name` of the directory holds these bytes.
  ghost predicate Holds(d: seq<Sector>, cwd: nat, name: seq<Byte>, bytes: seq<Byte>)
    requires IsDisk(d)
  {
    FileSystem.ReadFile(d, cwd, name, bytes, Ok)
  }

  // The name is that of a plain file of the directory.
  ghost predicate IsFile(d: seq<Sector>, cwd: nat, name: seq<Byte>)
    requires IsDisk(d)
  {
    exists i: nat :: Entry(Inodes(d), cwd, name, i) && !Inodes(d)[i].isDir
  }

  // `read` succeeds on exactly those names.
  lemma ReadNeedsFile(d: seq<Sector>, cwd: nat, depth: seq<nat>, name: seq<Byte>, bytes: seq<Byte>, r: Outcome)
    requires FsOk(d, cwd, depth) && FileSystem.ReadFile(d, cwd, name, bytes, r)
    ensures r.Ok? <==> IsFile(d, cwd, name)
  {
    hide Inodes, Marked, Owns, IsTree, NodesOk, Content, NodeOk;
    var t := Inodes(d);
    forall i: nat, j: nat | Entry(t, cwd, name, i) && Entry(t, cwd, name, j) ensures i == j {
      EntryUnique(t, cwd, name, i, j);
    }
  }

  // Writing a file that is there succeeds and leaves it holding the new bytes.
  lemma OverwriteHolds(d0: seq<Sector>, d1: seq<Sector>, cwd: nat, depth: seq<nat>, name: seq<Byte>,
                       was: seq<Byte>, data: seq<Byte>, r: Outcome)
    requires FsOk(d0, cwd, depth) && FsOk(d1, cwd, depth) && |data| <= FILE_MAX_BYTES
    requires Holds(d0, cwd, name, was) && FileSystem.Written(d0, d1, cwd, name, data, r)
    ensures r == Ok && Holds(d1, cwd, name, data)
  {
    hide Inodes, Marked, Owns, IsTree, NodesOk, Content, NodeOk;
    var i: nat :| Entry(Inodes(d0), cwd, name, i) && FileSystem.FileHolds(d0, d1, i, data);
    assert Entry(Inodes(d1), cwd, name, i);
    forall j: nat | Entry(Inodes(d1), cwd, name, j) ensures j == i { EntryUnique(Inodes(d1), cwd, name, j, i); }
  }

  // A name that cannot be read cannot be written either.
  lemma AbsentStays(d0: seq<Sector>, d1: seq<Sector>, cwd: nat, name: seq<Byte>, bytes: seq<Byte>, e: FsError,
                    data: seq<Byte>, r: Outcome)
    requires IsDisk(d0) && |data| <= FILE_MAX_BYTES
    requires FileSystem.ReadFile(d0, cwd, name, bytes, Err(e)) && FileSystem.Written(d0, d1, cwd, name, data, r)
    ensures r == Err(e) && d1 == d0
  {
    hide Inodes, Content, NodeOk, OthersKept;
  }

  // A key saves the text as it stands, or saves nothing.
  lemma StepSavesOnce(s: Session, key: Byte)
    requires Legal(s)
    ensures Step(s, key).saved == s.saved || Step(s, key).saved == s.saved + [Join(s.doc.lines)]
  {
    hide Join, Typed, Entered, Erased, Opened, CutTo, LineDeleted, WordEnd;
  }

  function Fresh(file: seq<Byte>): Session {
    Session(Doc(Loaded(file), 0, 0), Normal, 0, [], false, false, [])
  }

  // What a session that is not marked as changed shows is what opening the file again would show.
  lemma ShownIsOnDisk(file: seq<Byte>, keys: seq<Byte>)
    ensures Legal(Fresh(file))
    ensures var t := Presses(Fresh(file), keys);
            !t.dirty ==> Loaded(OnDisk(t, file)) == t.doc.lines
  {
    LoadedFits(file);
    var s, t := Fresh(file), Presses(Fresh(file), keys);
    var shown := Join(Loaded(file));
    RunKeepsClean(s, keys, shown);
    LoadAfterSave(t.doc.lines);
    if !t.dirty && t.saved == [] { JoinInjective(t.doc.lines, Loaded(file)); }
  }

  // The disk of a session that read `file` with outcome `r` and has come to `s`:
  // what was last saved, or an untouched disk when there is no such file.
  ghost predicate Tracks(d0: seq<Sector>, d: seq<Sector>, cwd: nat, name: seq<Byte>, file: seq<Byte>, r: Outcome,
                         s: Session)
    requires IsDisk(d0) && IsDisk(d)
  {
    FileSystem.ReadFile(d0, cwd, name, file, r) && if r.Ok? then Holds(d, cwd, name, OnDisk(s, file)) else d == d0
  }

  lemma SaveTracked(d0: seq<Sector>, d1: seq<Sector>, d2: seq<Sector>, cwd: nat, depth: seq<nat>, name: seq<Byte>,
                    file: seq<Byte>, r: Outcome, s: Session, key: Byte, w: Outcome)
    requires IsDisk(d0) && FsOk(d1, cwd, depth) && FsOk(d2, cwd, depth) && Legal(s)
    requires Tracks(d0, d1, cwd, name, file, r, s) && |Step(s, key).saved| == |s.saved| + 1
    requires FileSystem.Written(d1, d2, cwd, name, Step(s, key).saved[|s.saved|], w)
    ensures Tracks(d0, d2, cwd, name, file, r, Step(s, key))
  {
    hide FsOk, FileSystem.ReadFile, FileSystem.Written, Step, Holds;
    StepSavesOnce(s, key);
    SavedFits(s.doc.lines);
    var data := Step(s, key).saved[|s.saved|];
    if r.Ok? {
      OverwriteHolds(d1, d2, cwd, depth, name, OnDisk(s, file), data, w);
    } else {
      AbsentStays(d1, d2, cwd, name, file, r.error, data, w);
    }
  }

  lemma ValidIsDisk(d: seq<Sector>, cwd: nat, depth: seq<nat>)
    requires FsOk(d, cwd, depth)
    ensures IsDisk(d)
  {
    hide TableOk, Inodes, Marked;
  }

  // One key, and the write of `save` when it saves.
  method EditOnce(fs: FileSystem, ed: Editor, name: seq<Byte>, key: Byte,
                  ghost d0: seq<Sector>, ghost file: seq<Byte>, ghost r: Outcome)
    requires fs.Valid() && ed.Valid() && {fs, fs.disk} !! {ed, ed.grid, ed.lineLen, ed.cmd}
    requires IsDisk(d0) && Tracks(d0, fs.disk[..], fs.cwd, name, file, r, ed.State())
    modifies fs.disk, ed, ed.grid, ed.lineLen, ed.cmd
    ensures fs.Valid() && ed.Valid() && ed.State() == Step(old(ed.State()), key)
    ensures IsDisk(fs.disk[..]) && Tracks(d0, fs.disk[..], fs.cwd, name, file, r, ed.State())
  {
    hide FsOk, FileSystem.ReadFile, FileSystem.Written, Legal, Step, Holds;
    ghost var s, d1 := ed.State(), fs.disk[..];
    var n := |ed.saved|;
    StepSavesOnce(s, key);
    ed.Press(key);
    if |ed.saved| > n {
      var w := fs.Write(name, ed.saved[n]);
      SaveTracked(d0, d1, fs.disk[..], fs.cwd, fs.depth, name, file, r, s, key, w);
    }
    ValidIsDisk(fs.disk[..], fs.cwd, fs.depth);
  }

  // The main loop.
  method EditAll(fs: FileSystem, ed: Editor, name: seq<Byte>, keys: seq<Byte>,
                 ghost d0: seq<Sector>, ghost file: seq<Byte>, ghost r: Outcome)
    requires fs.Valid() && ed.Valid() && {fs, fs.disk} !! {ed, ed.grid, ed.lineLen, ed.cmd}
    requires IsDisk(d0) && Tracks(d0, fs.disk[..], fs.cwd, name, file, r, ed.State())
    modifies fs.disk, ed, ed.grid, ed.lineLen, ed.cmd
    ensures fs.Valid() && ed.Valid() && ed.State() == Presses(old(ed.State()), keys)
    ensures IsDisk(fs.disk[..]) && Tracks(d0, fs.disk[..], fs.cwd, name, file, r, ed.State())
  {
    hide FsOk, Tracks, Step, Legal;
    ValidIsDisk(fs.disk[..], fs.cwd, fs.depth);
    var i := 0;
    while i < |keys| && !ed.quit
      invariant i <= |keys| && fs.Valid() && ed.Valid()
      invariant Presses(ed.State(), keys[i..]) == Presses(old(ed.State()), keys)
      invariant IsDisk(fs.disk[..]) && Tracks(d0, fs.disk[..], fs.cwd, name, file, r, ed.State())
    {
      assert keys[i..][1..] == keys[i + 1..];
      EditOnce(fs, ed, name, keys[i], d0, file, r);
      i := i + 1;
    }
  }

  // Whatever has been typed, `:w` clears the mark of unsaved changes, without regard to the disk.
  lemma SaveClearsMark(file: seq<Byte>, keys: seq<Byte>)
    requires Legal(Fresh(file))
    requires var t := Presses(Fresh(file), keys); t.mode == Normal && t.pending == 0 && !t.quit
    ensures var t, u := Presses(Fresh(file), keys), Presses(Fresh(file), keys + [Key(':'), Key('w'), KEY_ENTER]);
            u.doc == t.doc && !u.dirty && u.saved == t.saved + [Join(t.doc.lines)]
  {
    hide Join, Legal;
    assert [Key(':'), Key('w'), KEY_ENTER] == CommandLine([Key('w')]);
    PressesMore(Fresh(file), keys, CommandLine([Key('w')]));
    CommandRuns(Presses(Fresh(file), keys), [Key('w')]);
  }

  // In normal mode, with no key pending.
  predicate AtRest(s: Session) { s.mode == Normal && s.pending == 0 && !s.quit }

  // What is on the disk at the end of a session that a command left: the text shown if the command saves
  // it, and otherwise what was there before the command.
  function LeftOnDisk(c: seq<Byte>, t: Session, file: seq<Byte>): seq<Byte> {
    if Saves(c) then Join(t.doc.lines) else OnDisk(t, file)
  }

  // A command that quits ends the session there, with the text as it was.
  lemma LeftByCommand(file: seq<Byte>, first: seq<Byte>, c: seq<Byte>, more: seq<Byte>)
    requires Legal(Fresh(file)) && AtRest(Presses(Fresh(file), first)) && Quits(c)
    ensures var t, u := Presses(Fresh(file), first), Presses(Fresh(file), first + CommandLine(c) + more);
            && u.quit && u.doc == t.doc && u.dirty == (t.dirty && !Saves(c))
            && OnDisk(u, file) == LeftOnDisk(c, t, file)
  {
    hide Join, Legal, CommandLine;
    var t := Presses(Fresh(file), first);
    PressesMore(Fresh(file), first, CommandLine(c));
    CommandRuns(t, c);
    PressesMore(Fresh(file), first + CommandLine(c), more);
  }

  // A blank editor with the file, if there is one, loaded into it.
  method Open(fs: FileSystem, name: seq<Byte>) returns (ed: Editor, r: Outcome, ghost file: seq<Byte>)
    requires fs.Valid()
    ensures fresh(ed) && fresh(ed.grid) && fresh(ed.lineLen) && fresh(ed.cmd) && ed.Valid()
    ensures ed.State() == Fresh(if r.Ok? then file else [])
    ensures IsDisk(fs.disk[..]) && Tracks(fs.disk[..], fs.disk[..], fs.cwd, name, file, r, ed.State())
  {
    hide FsOk, FileSystem.ReadFile, Loaded, Legal, OnDisk, Editor.Lines, Editor.GridShaped;
    ValidIsDisk(fs.disk[..], fs.cwd, fs.depth);
    var buf := new Byte[FILE_MAX_BYTES];
    var size: nat;
    size, r := fs.Read(name, buf);
    file := buf[..size];
    ed := new Editor();
    EmptyLoads();
    if r.Ok? { ed.Load(buf[..size]); }
    NothingSaved(file);
  }

  // `run`: on the name of a plain file, the disk always holds the bytes last saved,
  // and a session without unsaved changes shows what is on the disk.  On any other
  // name every save is lost, the disk stays as it was, and the session is the one
  // an empty file would give, marks of saved changes included.  A session left by
  // `wq` or `x` has on the disk the text it shows, one left by `q` or `q!` what was
  // there before.
  method EditFile(fs: FileSystem, name: seq<Byte>, keys: seq<Byte>)
    returns (ed: Editor, found: bool, ghost was: seq<Byte>)
    requires fs.Valid()
    modifies fs.disk
    ensures fs.Valid() && fresh(ed) && ed.Valid()
    ensures IsDisk(old(fs.disk[..])) && (found <==> IsFile(old(fs.disk[..]), fs.cwd, name))
    ensures found ==> Holds(old(fs.disk[..]), fs.cwd, name, was)
    ensures Legal(Fresh(was)) && ed.State() == Presses(Fresh(was), keys)
    ensures found ==> Holds(fs.disk[..], fs.cwd, name, OnDisk(ed.State(), was))
    ensures found && !ed.dirty ==> Loaded(OnDisk(ed.State(), was)) == ed.State().doc.lines
    ensures !found ==> was == [] && fs.disk[..] == old(fs.disk[..])
    ensures forall first, c, more | keys == first + CommandLine(c) + more && Quits(c)
                                    && AtRest(Presses(Fresh(was), first)) ::
              && ed.quit && ed.State().doc == Presses(Fresh(was), first).doc
              && (found ==> Holds(fs.disk[..], fs.cwd, name, LeftOnDisk(c, Presses(Fresh(was), first), was)))
  {
    hide FsOk, FileSystem.ReadFile, IsFile, Loaded, Legal, OnDisk, Presses;
    ValidIsDisk(fs.disk[..], fs.cwd, fs.depth);
    ghost var d0 := fs.disk[..];
    var r: Outcome;
    ghost var file;
    ed, r, file := Open(fs, name);
    found, was := r.Ok?, if r.Ok? then file else [];
    ReadNeedsFile(d0, fs.cwd, fs.depth, name, file, r);
    ShownIsOnDisk(was, keys);
    EditAll(fs, ed, name, keys, d0, file, r);
    forall first, c, more | keys == first + CommandLine(c) + more && Quits(c) && AtRest(Presses(Fresh(was), first))
      ensures ed.quit && ed.State().doc == Presses(Fresh(was), first).doc
      ensures OnDisk(ed.State(), was) == LeftOnDisk(c, Presses(Fresh(was), first), was)
    {
      LeftByCommand(was, first, c, more);
    }
  }

  lemma EmptyLoads()
    ensures Loaded([]) == [[]]
  {
  }

  lemma NothingSaved(file: seq<Byte>)
    ensures OnDisk(Fresh(file), file) == file
  {
  }
}
