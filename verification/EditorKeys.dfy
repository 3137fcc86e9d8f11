// What each key does to an editing session, and what a whole run of keys keeps.
//
// `Step` is the editor seen from outside: the text and cursor, the mode, the
// command being typed, and the buffers handed to the filesystem so far.
module EditorKeys {
  import opened Bits
  import opened EditorText

  const KEY_ENTER: Byte := 10
  const KEY_BACKSPACE: Byte := 8
  const KEY_ESC: Byte := 27
  const CMD_MAX: nat := 16

  datatype Mode = Normal | Insert | Command

  datatype Session = Session(
    doc: Doc, mode: Mode, pending: Byte, cmd: seq<Byte>, dirty: bool, quit: bool, saved: seq<seq<Byte>>)

  predicate Printable(key: Byte) { 0x20 <= key <= 0x7e || 0x80 <= key }

  // A key as a character.
  function Key(c: char): Byte
    requires c as int < 256
  {
    c as int
  }

  predicate Legal(s: Session) {
    && Between(s.doc)
    && (s.mode != Insert ==> On(s.doc))
    && (s.pending == 0 || (s.pending == Key('d') && s.mode == Normal))
    && |s.cmd| <= CMD_MAX
    && (s.mode != Command ==> s.cmd == [])
  }

  // ---------- one key ----------

  function Edited(s: Session, doc: Doc): Session { s.(doc := doc, dirty := true) }

  function MoveKey(d: Doc, key: Byte): Doc
    requires Between(d)
  {
    if key == Key('h') && d.col > 0 then d.(col := d.col - 1)
    else if key == Key('l') && d.col + 1 < |Cur(d)| then d.(col := d.col + 1)
    else if key == Key('j') && d.row + 1 < |d.lines| then Clamped(d.(row := d.row + 1), false)
    else if key == Key('k') && d.row > 0 then Clamped(d.(row := d.row - 1), false)
    else if key == Key('0') then d.(col := 0)
    else if key == Key('$') then d.(col := Last(Cur(d)))
    else d
  }

  function PendingKey(s: Session, key: Byte): Session
    requires Legal(s)
  {
    var t := s.(pending := 0);
    if key == Key('d') then Edited(t, LineDeleted(s.doc))
    else if key == Key('w') && s.doc.col < |Cur(s.doc)| then
      Edited(t, CutTo(s.doc, WordEnd(Cur(s.doc), s.doc.col)))
    else t
  }

  function NormalKey(s: Session, key: Byte): Session
    requires Legal(s)
  {
    var d := s.doc;
    if s.pending == Key('d') then PendingKey(s, key)
    else if key == Key('i') then s.(mode := Insert)
    else if key == Key('a') then s.(mode := Insert, doc := d.(col := if Cur(d) == [] then d.col else d.col + 1))
    else if key == Key('A') then s.(mode := Insert, doc := d.(col := |Cur(d)|))
    else if key == Key('I') then s.(mode := Insert, doc := d.(col := 0))
    else if key == Key('o') then
      if |d.lines| < ROWS then Edited(s.(mode := Insert), Opened(d)) else s.(mode := Insert)
    else if key == Key('x') then
      if d.col < |Cur(d)| then Edited(s, CutTo(d, d.col + 1)) else s
    else if key == Key('d') then s.(pending := Key('d'))
    else if key == Key(':') then s.(mode := Command, cmd := [])
    else s.(doc := MoveKey(d, key))
  }

  function InsertKey(s: Session, key: Byte): Session
    requires Legal(s)
  {
    var d := s.doc;
    if key == KEY_ESC then
      s.(mode := Normal, doc := Clamped(d.(col := if d.col > 0 then d.col - 1 else 0), false))
    else if key == KEY_ENTER then if |d.lines| < ROWS then Edited(s, Entered(d)) else s
    else if key == KEY_BACKSPACE then if Erased(d) == d then s else Edited(s, Erased(d))
    else if Printable(key) then if |Cur(d)| < COLS then Edited(s, Typed(d, key)) else s
    else s
  }

  function Saved(s: Session): Session {
    s.(saved := s.saved + [Join(s.doc.lines)], dirty := false)
  }

  function Executed(s: Session): Session {
    if s.cmd == [Key('w')] then Saved(s)
    else if s.cmd == [Key('q')] || s.cmd == [Key('q'), Key('!')] then s.(quit := true)
    else if s.cmd == [Key('w'), Key('q')] || s.cmd == [Key('x')] then Saved(s).(quit := true)
    else s
  }

  function CommandKey(s: Session, key: Byte): Session {
    if key == KEY_ESC then s.(mode := Normal, cmd := [])
    else if key == KEY_ENTER then Executed(s).(mode := Normal, cmd := [])
    else if key == KEY_BACKSPACE then if s.cmd == [] then s else s.(cmd := s.cmd[..|s.cmd| - 1])
    else if Printable(key) && |s.cmd| < CMD_MAX then s.(cmd := s.cmd + [key])
    else s
  }

  function Step(s: Session, key: Byte): Session
    requires Legal(s)
  {
    match s.mode
    case Normal => NormalKey(s, key)
    case Insert => InsertKey(s, key)
    case Command => CommandKey(s, key)
  }

  // ---------- what every key keeps ----------

  lemma MoveKeyKeeps(d: Doc, key: Byte)
    requires On(d)
    ensures On(MoveKey(d, key)) && MoveKey(d, key).lines == d.lines
  {
  }

  // The keys that move, each to its own place: one character or line on if there is one, or to an end of
  // the line.  On another line the column is the same, or the last one there.
  lemma MoveKeyMeans(d: Doc, key: Byte)
    requires On(d)
    ensures var e, last := MoveKey(d, key), Last(Cur(MoveKey(d, key)));
            && (key == Key('j') ==> e.row == if d.row + 1 < |d.lines| then d.row + 1 else d.row)
            && (key == Key('k') ==> e.row == if d.row > 0 then d.row - 1 else 0)
            && (key == Key('j') || key == Key('k') ==> e.col == if d.col <= last then d.col else last)
            && (key != Key('j') && key != Key('k') ==> e.row == d.row)
            && (key == Key('h') ==> e.col == if d.col > 0 then d.col - 1 else 0)
            && (key == Key('l') ==> e.col == if d.col < last then d.col + 1 else last)
            && (key == Key('0') ==> e.col == 0)
            && (key == Key('$') ==> e.col == last)
            && (key !in {Key('h'), Key('j'), Key('k'), Key('l'), Key('0'), Key('$')} ==> e == d)
  {
  }

  // The four keys that only enter insert mode leave the text alone and put the cursor before or after
  // the character, or at an end of the line; Esc steps back onto the text.
  lemma InsertModeEntered(s: Session, key: Byte)
    requires Legal(s) && s.mode == Normal && s.pending == 0 && key in {Key('i'), Key('a'), Key('A'), Key('I')}
    ensures var t, n := NormalKey(s, key), |Cur(s.doc)|;
            && t == s.(mode := Insert, doc := s.doc.(col := t.doc.col)) && Legal(t)
            && (key == Key('i') ==> t.doc.col == s.doc.col)
            && (key == Key('a') ==> t.doc.col == if n == 0 then 0 else s.doc.col + 1)
            && (key == Key('A') ==> t.doc.col == n)
            && (key == Key('I') ==> t.doc.col == 0)
            && (key == Key('a') ==> InsertKey(t, KEY_ESC) == s)
            && (key == Key('A') ==> InsertKey(t, KEY_ESC) == s.(doc := MoveKey(s.doc, Key('$'))))
            && (key == Key('I') ==> InsertKey(t, KEY_ESC) == s.(doc := MoveKey(s.doc, Key('0'))))
            && (key == Key('i') ==> InsertKey(t, KEY_ESC) == s.(doc := MoveKey(s.doc, Key('h'))))
  {
    hide FitsScreen;
    NormalKeyKeeps(s, key);
  }

  // Esc leaves insert mode with the text as it is and the cursor one to the left, if it can.
  lemma EscapeMeans(s: Session)
    requires Legal(s) && s.mode == Insert
    ensures InsertKey(s, KEY_ESC)
            == s.(mode := Normal, doc := s.doc.(col := if s.doc.col > 0 then s.doc.col - 1 else 0))
  {
    hide FitsScreen;
  }

  // `dw` takes the rest of the word under the cursor and the spaces after it, or those alone.
  lemma WordCut(s: Session)
    requires Legal(s) && s.mode == Normal && s.pending == 0 && !s.quit && s.doc.col < |Cur(s.doc)|
    ensures var t, line, at := Presses(s, [Key('d'), Key('w')]), Cur(s.doc), s.doc.col;
            && t.doc.row == s.doc.row < |t.doc.lines| && t.dirty
            && exists ink: nat, to: nat :: WordAndSpaces(line, at, ink, to) && Cur(t.doc) == line[..at] + line[to..]
  {
    hide Join, Offset, FitsScreen, WordEnd, Presses, Step;
    TwoKeys(s, Key('w'));
    var t, to := Presses(s, [Key('d'), Key('w')]), WordEnd(Cur(s.doc), s.doc.col);
    CutRemoves(s.doc, to);
    var ink: nat :| WordAndSpaces(Cur(s.doc), s.doc.col, ink, to);
    assert Cur(t.doc) == Cur(s.doc)[..s.doc.col] + Cur(s.doc)[to..];
  }

  // `o` puts a newline at the end of the line and goes to the line after it, if the screen has one left;
  // in any case it enters insert mode.
  lemma LineOpened(s: Session)
    requires Legal(s) && s.mode == Normal && s.pending == 0
    ensures Offset(s.doc.(col := |Cur(s.doc)|)) <= |Join(s.doc.lines)|
    ensures var t, file, end := NormalKey(s, Key('o')), Join(s.doc.lines), Offset(s.doc.(col := |Cur(s.doc)|));
            && Legal(t) && t.mode == Insert
            && (|s.doc.lines| == ROWS ==> t == s.(mode := Insert))
            && (|s.doc.lines| < ROWS ==>
                  && Join(t.doc.lines) == Inserted(file, end, [NEWLINE])
                  && t.doc.row == s.doc.row + 1 && t.doc.col == 0 && Offset(t.doc) == end + 1)
  {
    hide Join, Offset, FitsScreen;
    NormalKeyKeeps(s, Key('o'));
    var d := s.doc.(col := |Cur(s.doc)|);
    CutRemoves(d, d.col);
    OpenedIsSplitAtEnd(s.doc);
    if |d.lines| < ROWS { EnteredInserts(d); }
  }

  // `dd` takes the line with one newline out of the file, and empties the only line.
  lemma LineDropped(s: Session)
    requires Legal(s) && s.mode == Normal && s.pending == 0 && !s.quit
    ensures var t, file, at := Presses(s, [Key('d'), Key('d')]), Join(s.doc.lines), |Above(s.doc.lines, s.doc.row)|;
            && t.mode == Normal && t.pending == 0 && t.dirty && t.doc.col == 0
            && if |s.doc.lines| == 1 then t.doc.lines == [[]]
               else if s.doc.row < |s.doc.lines| - 1 then
                 && at + |Cur(s.doc)| + 1 <= |file| && t.doc.row == s.doc.row
                 && Join(t.doc.lines) == Removed(file, at, at + |Cur(s.doc)| + 1)
               else
                 && 1 <= at <= |file| && t.doc.row == s.doc.row - 1
                 && Join(t.doc.lines) == Removed(file, at - 1, |file|)
  {
    hide Join, Above, FitsScreen, LineDeleted, Presses, Step;
    TwoKeys(s, Key('d'));
    LineDeletedRemoves(s.doc);
    LineDeletedCursor(s.doc);
  }

  // `d` and another key.
  lemma TwoKeys(s: Session, key: Byte)
    requires Legal(s) && s.mode == Normal && s.pending == 0 && !s.quit
    ensures Legal(s.(pending := Key('d')))
    ensures Presses(s, [Key('d'), key]) == PendingKey(s.(pending := Key('d')), key)
  {
    hide Join, FitsScreen, PendingKey;
    StepKeeps(s, Key('d'));
    var s1 := Step(s, Key('d'));
    StepKeeps(s1, key);
    assert [Key('d'), key][1..] == [key];
    assert Presses(s1, [key]) == Step(s1, key);
  }

  // After `d` any key but `d` and `w` is dropped, and so is `w` at the end of the line.
  lemma PendingDropped(s: Session, key: Byte)
    requires Legal(s) && s.mode == Normal && s.pending == Key('d')
    ensures NormalKey(s, key).pending == 0
    ensures key != Key('d') && (key == Key('w') ==> s.doc.col == |Cur(s.doc)|) ==>
              NormalKey(s, key) == s.(pending := 0)
  {
  }

  lemma PendingKeyKeeps(s: Session, key: Byte)
    requires Legal(s) && s.mode == Normal
    ensures Legal(PendingKey(s, key))
  {
    hide Join, WordEnd, Offset, CutTo, LineDeleted, FitsScreen;
    var d := s.doc;
    LineDeletedRemoves(d);
    if d.col < |Cur(d)| { CutRemoves(d, WordEnd(Cur(d), d.col)); }
  }

  lemma NormalKeyKeeps(s: Session, key: Byte)
    requires Legal(s) && s.mode == Normal
    ensures Legal(NormalKey(s, key))
  {
    hide Join, Offset, MoveKey, PendingKey, CutTo, Opened, FitsScreen;
    var d := s.doc;
    PendingKeyKeeps(s, key);
    MoveKeyKeeps(d, key);
    OpenedIsSplitAtEnd(d);
    if d.col < |Cur(d)| { CutRemoves(d, d.col + 1); }
  }

  lemma InsertKeyKeeps(s: Session, key: Byte)
    requires Legal(s) && s.mode == Insert
    ensures Legal(InsertKey(s, key))
  {
    hide Join, Offset;
    var d := s.doc;
    ErasedRemoves(d);
    if |d.lines| < ROWS { EnteredInserts(d); }
    if |Cur(d)| < COLS && Printable(key) { TypedInserts(d, key); }
  }

  lemma StepKeeps(s: Session, key: Byte)
    requires Legal(s)
    ensures Legal(Step(s, key))
  {
    hide NormalKey, InsertKey, Join;
    match s.mode
    case Normal => NormalKeyKeeps(s, key);
    case Insert => InsertKeyKeeps(s, key);
    case Command =>
  }

  // Seen as a file and an offset, insert mode is a byte buffer: Enter and the
  // printable keys insert their own byte at the cursor, backspace removes the
  // byte before it, and nothing else changes the file.
  lemma InsertModeIsFlat(s: Session, key: Byte)
    requires Legal(s) && s.mode == Insert
    ensures var t, file, at := InsertKey(s, key), Join(s.doc.lines), Offset(s.doc);
            && at <= |file|
            && (if (key == KEY_ENTER && |s.doc.lines| < ROWS) || (Printable(key) && |Cur(s.doc)| < COLS) then
                  Join(t.doc.lines) == Inserted(file, at, [key]) && t.doc.row < |t.doc.lines| && Offset(t.doc) == at + 1
                else if key == KEY_BACKSPACE && Erased(s.doc) != s.doc then
                  && at >= 1 && Join(t.doc.lines) == Removed(file, at - 1, at)
                  && t.doc.row < |t.doc.lines| && Offset(t.doc) == at - 1
                else
                  Join(t.doc.lines) == file)
  {
    hide Join, Offset, Entered, Erased, Typed;
    var d := s.doc;
    CutRemoves(d, d.col);
    ErasedRemoves(d);
    if |d.lines| < ROWS { EnteredInserts(d); }
    if |Cur(d)| < COLS && Printable(key) { TypedInserts(d, key); }
  }

  // In the other modes a key removes at most one stretch of the file, or opens a
  // line with one newline; `x` removes the byte at the cursor.
  lemma NormalModeCuts(s: Session, key: Byte)
    requires Legal(s) && s.mode == Normal
    ensures var t, file, at := NormalKey(s, key), Join(s.doc.lines), Offset(s.doc);
            && at <= |file|
            && (t.doc.lines == s.doc.lines
                || OneCut(file, Join(t.doc.lines))
                || exists to :: 0 <= to <= |file| && Join(t.doc.lines) == Inserted(file, to, [NEWLINE]))
            && (s.pending == 0 && key == Key('x') && s.doc.col < |Cur(s.doc)| ==>
                  at < |file| && Join(t.doc.lines) == Removed(file, at, at + 1))
  {
    hide Join, Offset, Opened, CutTo, LineDeleted, WordEnd;
    var d, file := s.doc, Join(s.doc.lines);
    CutRemoves(d, d.col);
    if s.pending == Key('d') {
      if key == Key('d') {
        LineCut(d);
      } else if key == Key('w') && d.col < |Cur(d)| {
        CutRemoves(d, WordEnd(Cur(d), d.col));
      }
    } else if key == Key('x') && d.col < |Cur(d)| {
      CutRemoves(d, d.col + 1);
    } else if key == Key('o') && |d.lines| < ROWS {
      OpenedIsSplitAtEnd(d);
      EnteredInserts(d.(col := |Cur(d)|));
    }
  }

  predicate OneCut(before: seq<Byte>, after: seq<Byte>) {
    exists from: nat, to: nat :: from <= to <= |before| && after == Removed(before, from, to)
  }

  lemma LineCut(d: Doc)
    requires Between(d)
    ensures OneCut(Join(d.lines), Join(LineDeleted(d).lines))
  {
    hide Join, LineDeleted, Above, Below;
    LineDeletedRemoves(d);
    var all := Join(d.lines);
    if |d.lines| == 1 {
      assert Removed(all, 0, |all|) == [];
    }
  }

  // ---------- runs ----------

  // The session after a run of keys.  The editor stops reading once told to quit.
  function Presses(s: Session, keys: seq<Byte>): (t: Session)
    requires Legal(s)
    ensures Legal(t)
    decreases |keys|
  {
    if keys == [] || s.quit then s
    else
      StepKeeps(s, keys[0]);
      Presses(Step(s, keys[0]), keys[1..])
  }

  // What the file on disk holds as far as the session knows: the last buffer
  // saved, or the bytes the text was loaded as.
  function OnDisk(s: Session, loaded: seq<Byte>): seq<Byte> {
    if s.saved == [] then loaded else s.saved[|s.saved| - 1]
  }

  // A session that is not marked as changed shows the text last loaded or saved.
  predicate CleanIsSaved(s: Session, loaded: seq<Byte>) {
    !s.dirty ==> Join(s.doc.lines) == OnDisk(s, loaded)
  }

  lemma {:induction false} RunKeepsClean(s: Session, keys: seq<Byte>, loaded: seq<Byte>)
    requires Legal(s) && CleanIsSaved(s, loaded)
    ensures CleanIsSaved(Presses(s, keys), loaded)
    decreases |keys|
  {
    if keys != [] && !s.quit {
      StepKeeps(s, keys[0]);
      StepKeepsClean(s, keys[0], loaded);
      RunKeepsClean(Step(s, keys[0]), keys[1..], loaded);
    }
  }

  lemma StepKeepsClean(s: Session, key: Byte, loaded: seq<Byte>)
    requires Legal(s) && CleanIsSaved(s, loaded)
    ensures CleanIsSaved(Step(s, key), loaded)
  {
    hide Join, Typed, Entered, Erased, Opened, CutTo, LineDeleted, WordEnd;
  }

  // Every buffer handed to the filesystem in a run fits a file, and opening it
  // again shows a text that would be saved as the same bytes.
  predicate SavesAreTexts(s: Session) {
    forall i :: 0 <= i < |s.saved| ==> |s.saved[i]| <= 1839 && Join(Loaded(s.saved[i])) == s.saved[i]
  }

  lemma {:induction false} RunSavesTexts(s: Session, keys: seq<Byte>)
    requires Legal(s) && SavesAreTexts(s)
    ensures SavesAreTexts(Presses(s, keys))
    decreases |keys|
  {
    if keys != [] && !s.quit {
      StepKeeps(s, keys[0]);
      StepSavesTexts(s, keys[0]);
      RunSavesTexts(Step(s, keys[0]), keys[1..]);
    }
  }

  lemma StepSavesTexts(s: Session, key: Byte)
    requires Legal(s) && SavesAreTexts(s)
    ensures SavesAreTexts(Step(s, key))
  {
    hide Join, Loaded, Typed, Entered, Erased, Opened, CutTo, LineDeleted, WordEnd;
    SavedFits(s.doc.lines);
    LoadAfterSave(s.doc.lines);
  }

  // The mark of unsaved changes is set by exactly the keys that change the text, or empty the only line,
  // and cleared by none but a command.
  lemma StepMarks(s: Session, key: Byte)
    requires Legal(s) && s.mode != Command
    ensures var t := Step(s, key);
            t.dirty <==> s.dirty || t.doc.lines != s.doc.lines || (s.pending == Key('d') && key == Key('d'))
  {
    hide Join, FitsScreen;
    var d := s.doc;
    if s.mode == Normal && d.col < |Cur(d)| {
      CutShortens(d, d.col + 1);
      CutShortens(d, WordEnd(Cur(d), d.col));
      WordMoves(Cur(d), d.col);
    }
  }

  lemma CutShortens(d: Doc, to: nat)
    requires Between(d) && d.col <= to <= |Cur(d)|
    ensures to > d.col ==> CutTo(d, to).lines != d.lines
  {
    assert CutTo(d, to).lines[d.row] == Removed(Cur(d), d.col, to);
  }

  lemma WordMoves(line: Line, at: nat)
    requires at < |line|
    ensures WordEnd(line, at) > at
  {
    hide WordEnd;
    var to := WordEnd(line, at);
    var ink: nat :| WordAndSpaces(line, at, ink, to);
  }

  // ---------- typing and taking it back ----------

  // Keys that each put their byte into the text, pressed in insert mode.
  predicate AllTaken(s: Session, keys: seq<Byte>)
    requires Legal(s)
    decreases |keys|
  {
    keys == [] ||
    (&& s.mode == Insert && !s.quit
     && (if keys[0] == KEY_ENTER then |s.doc.lines| < ROWS else Printable(keys[0]) && |Cur(s.doc)| < COLS)
     && (StepKeeps(s, keys[0]); AllTaken(Step(s, keys[0]), keys[1..])))
  }

  // Typing a text puts it into the file at the cursor, newlines and all.
  lemma {:induction false} TypingInserts(s: Session, keys: seq<Byte>)
    requires Legal(s) && AllTaken(s, keys)
    ensures Offset(s.doc) <= |Join(s.doc.lines)|
    ensures var t := Presses(s, keys);
            && Join(t.doc.lines) == Inserted(Join(s.doc.lines), Offset(s.doc), keys)
            && Offset(t.doc) == Offset(s.doc) + |keys|
            && t.mode == s.mode && t.quit == s.quit
    decreases |keys|
  {
    hide Join, Offset, Typed, Entered, Erased;
    CutRemoves(s.doc, s.doc.col);
    var file, at := Join(s.doc.lines), Offset(s.doc);
    if keys == [] {
      assert Inserted(file, at, []) == file;
    } else {
      InsertModeIsFlat(s, keys[0]);
      StepKeeps(s, keys[0]);
      var t := Step(s, keys[0]);
      TypingInserts(t, keys[1..]);
      InsertedTwice(file, at, keys[0], keys[1..]);
    }
  }

  lemma InsertedTwice(file: seq<Byte>, at: nat, b: Byte, more: seq<Byte>)
    requires at <= |file|
    ensures Inserted(Inserted(file, at, [b]), at + 1, more) == Inserted(file, at, [b] + more)
  {
  }

  function Backspaces(n: nat): (keys: seq<Byte>)
    ensures |keys| == n
  {
    if n == 0 then [] else Backspaces(n - 1) + [KEY_BACKSPACE]
  }

  lemma {:induction false} PressesMore(s: Session, first: seq<Byte>, more: seq<Byte>)
    requires Legal(s)
    ensures Presses(s, first + more) == Presses(Presses(s, first), more)
    decreases |first|
  {
    hide Step;
    if first == [] {
      assert first + more == more;
    } else if !s.quit {
      StepKeeps(s, first[0]);
      PressesMore(Step(s, first[0]), first[1..], more);
      assert (first + more)[1..] == first[1..] + more;
    }
  }

  // One key put in, one backspace: text and cursor are as before.
  lemma KeyThenErase(s: Session, key: Byte)
    requires Legal(s) && AllTaken(s, [key])
    ensures Legal(Step(s, key)) && Step(Step(s, key), KEY_BACKSPACE) == s.(dirty := true)
    ensures Step(s, key).dirty && !Step(s, key).quit
  {
    hide Join, Typed, Entered, Erased;
    StepKeeps(s, key);
    InsertModeIsFlat(s, key);
    if key == KEY_ENTER {
      SplitThenErase(s.doc);
    } else {
      TypeThenErase(s.doc, key);
    }
  }

  // As many backspaces as keys typed bring back the text and the cursor.
  lemma {:induction false} TypingTakenBack(s: Session, keys: seq<Byte>)
    requires Legal(s) && AllTaken(s, keys)
    ensures Presses(s, keys + Backspaces(|keys|)) == s.(dirty := s.dirty || keys != [])
    decreases |keys|
  {
    hide Step, Join;
    if keys == [] {
      assert keys + Backspaces(0) == [];
    } else {
      var back := Backspaces(|keys| - 1);
      KeyThenErase(s, keys[0]);
      var t := Step(s, keys[0]);
      TypingTakenBack(t, keys[1..]);
      assert t.(dirty := true) == t;
      PressesMore(t, keys[1..] + back, [KEY_BACKSPACE]);
      assert (keys + Backspaces(|keys|))[1..] == keys[1..] + back + [KEY_BACKSPACE];
      assert Presses(t, [KEY_BACKSPACE]) == Step(t, KEY_BACKSPACE);
    }
  }

  // ---------- commands ----------

  // The keys of a command: a colon, what is typed, and Enter.
  function CommandLine(c: seq<Byte>): seq<Byte> { [Key(':')] + c + [KEY_ENTER] }

  function FirstOf(c: seq<Byte>, n: nat): seq<Byte> { if |c| <= n then c else c[..n] }

  lemma {:induction false} CommandTyped(s: Session, c: seq<Byte>)
    requires Legal(s) && s.mode == Command && !s.quit && forall i | 0 <= i < |c| :: Printable(c[i])
    ensures Presses(s, c) == s.(cmd := FirstOf(s.cmd + c, CMD_MAX))
    decreases |c|
  {
    hide Join, FitsScreen;
    if c == [] {
      assert s.cmd + c == s.cmd;
    } else {
      StepKeeps(s, c[0]);
      var t := Step(s, c[0]);
      CommandTyped(t, c[1..]);
      assert s.cmd + c == s.cmd + [c[0]] + c[1..];
      if |s.cmd| == CMD_MAX {
        assert FirstOf(s.cmd + c[1..], CMD_MAX) == FirstOf(s.cmd + c, CMD_MAX) == s.cmd;
      }
    }
  }

  predicate Saves(c: seq<Byte>) { c in {[Key('w')], [Key('w'), Key('q')], [Key('x')]} }

  predicate Quits(c: seq<Byte>) { c in {[Key('q')], [Key('q'), Key('!')], [Key('w'), Key('q')], [Key('x')]} }

  lemma CommandEntered(s: Session)
    requires s.mode == Command && !s.quit
    ensures var t := CommandKey(s, KEY_ENTER);
            && t.doc == s.doc && t.mode == Normal && t.pending == s.pending && t.cmd == []
            && (t.quit <==> Quits(s.cmd))
            && t.saved == (if Saves(s.cmd) then s.saved + [Join(s.doc.lines)] else s.saved)
            && t.dirty == (if Saves(s.cmd) then false else s.dirty)
  {
    hide Join;
  }

  // Whatever is typed as a command: `w`, `wq` and `x` hand the text over once and clear the mark of
  // unsaved changes, `q`, `q!`, `wq` and `x` end the session, and nothing else does either or touches the
  // text.  `q` does not ask whether there are unsaved changes.
  lemma CommandRuns(s: Session, c: seq<Byte>)
    requires Legal(s) && s.mode == Normal && s.pending == 0 && !s.quit
    requires forall i | 0 <= i < |c| :: Printable(c[i])
    ensures var t := Presses(s, CommandLine(c));
            && t.doc == s.doc && t.mode == Normal && t.pending == 0 && t.cmd == []
            && (t.quit <==> Quits(c))
            && t.saved == (if Saves(c) then s.saved + [Join(s.doc.lines)] else s.saved)
            && t.dirty == (if Saves(c) then false else s.dirty)
  {
    hide Join, FitsScreen, CommandKey, Saves, Quits;
    StepKeeps(s, Key(':'));
    var t0 := Step(s, Key(':'));
    assert CommandLine(c)[1..] == c + [KEY_ENTER];
    PressesMore(t0, c, [KEY_ENTER]);
    CommandTyped(t0, c);
    assert [] + c == c;
    var t1 := Presses(t0, c);
    StepKeeps(t1, KEY_ENTER);
    assert Presses(t1, [KEY_ENTER]) == Step(t1, KEY_ENTER);
    CommandEntered(t1);
    SameCommand(c);
  }

  // No command is longer than the place for it.
  lemma SameCommand(c: seq<Byte>)
    ensures Saves(FirstOf(c, CMD_MAX)) == Saves(c) && Quits(FirstOf(c, CMD_MAX)) == Quits(c)
  {
    assert |c| > CMD_MAX ==> |FirstOf(c, CMD_MAX)| == CMD_MAX;
  }
}
