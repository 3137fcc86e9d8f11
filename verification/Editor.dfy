// The modal text editor over its fixed grid of 23 rows of 79 cells.
//
// A row is a value that is copied and updated whole, as rows of the source's
// nested array are.  `State` reads the grid as a session: the lines are the
// used parts of the used rows.  Every method is specified on that session.
module Editor {
  import opened Bits
  import opened EditorText
  import opened EditorKeys

  function BlankRow(): (row: seq<Byte>)
    ensures |row| == COLS && forall c :: 0 <= c < COLS ==> row[c] == SPACE
  {
    seq(COLS, c => SPACE)
  }

  class Editor {
    const grid: array<seq<Byte>>
    const lineLen: array<nat>
    var nLines: nat
    var curR: nat
    var curC: nat
    var mode: Mode
    const cmd: array<Byte>
    var cmdLen: nat
    var pending: Byte
    var dirty: bool
    var quit: bool
    // The buffers handed to the filesystem, oldest first.
    var saved: seq<seq<Byte>>

    // The screen is well formed: rows of the right width, lengths inside them.
    predicate GridShaped()
      reads grid, lineLen
    {
      && grid.Length == ROWS && lineLen.Length == ROWS
      && (forall r :: 0 <= r < ROWS ==> |grid[r]| == COLS)
      && (forall r :: 0 <= r < ROWS ==> lineLen[r] <= COLS)
    }

    predicate Shaped()
      reads `nLines, grid, lineLen
    {
      GridShaped() && 1 <= nLines <= ROWS && cmd.Length == CMD_MAX
    }

    function Row(r: nat): Line
      requires r < grid.Length && r < lineLen.Length && lineLen[r] <= |grid[r]|
      reads grid, lineLen
    {
      grid[r][..lineLen[r]]
    }

    function Rows(n: nat): (lines: seq<Line>)
      requires GridShaped() && n <= ROWS
      reads grid, lineLen
      ensures |lines| == n
      ensures forall r :: 0 <= r < n ==> lines[r] == Row(r)
    {
      if n == 0 then [] else Rows(n - 1) + [Row(n - 1)]
    }

    function Lines(): (lines: seq<Line>)
      requires Shaped()
      reads `nLines, grid, lineLen
      ensures |lines| == nLines
      ensures forall r :: 0 <= r < nLines ==> lines[r] == Row(r)
    {
      Rows(nLines)
    }

    function Cursor(): Doc
      requires Shaped()
      reads `nLines, `curR, `curC, grid, lineLen
    {
      Doc(Lines(), curR, curC)
    }

    function CurLineLen(): (len: nat)
      requires Shaped() && curR < nLines
      reads `nLines, `curR, `curC, grid, lineLen
      ensures len == |Cur(Cursor())| <= COLS
    {
      lineLen[curR]
    }

    function State(): Session
      requires Shaped() && cmdLen <= cmd.Length
      reads this, grid, lineLen, cmd
    {
      Session(Cursor(), mode, pending, cmd[..cmdLen], dirty, quit, saved)
    }

    predicate Valid()
      reads this, grid, lineLen, cmd
    {
      Shaped() && cmdLen <= cmd.Length && Legal(State())
    }

    // A blank editor.
    constructor ()
      ensures Valid() && fresh(grid) && fresh(lineLen) && fresh(cmd)
      ensures State() == Session(Doc([[]], 0, 0), Normal, 0, [], false, false, [])
    {
      grid := new seq<Byte>[ROWS](_ => BlankRow());
      lineLen := new nat[ROWS](_ => 0);
      nLines, curR, curC, mode := 1, 0, 0, Normal;
      cmd := new Byte[CMD_MAX](_ => 0);
      cmdLen, pending, dirty, quit, saved := 0, 0, false, false, [];
      new;
      hide Lines, Rows, Join, Legal, BlankRow, FitsScreen;
      assert Row(0) == [];
      LinesAre([[]]);
      BlankIsLegal();
    }

    // Reads a file into the blank grid, line by line.
    method Load(buf: seq<Byte>)
      requires Valid() && Lines() == [[]]
      modifies this`nLines, grid, lineLen
      ensures Valid() && State() == old(State()).(doc := Doc(Loaded(buf), old(curR), old(curC)))
    {
      hide Lines;
      ReadLines(buf);
      LoadedFits(buf);
      assert Cur(old(Cursor())) == [];
    }

    method ReadLines(buf: seq<Byte>)
      requires Shaped() && Lines() == [[]]
      modifies this`nLines, grid, lineLen
      ensures Shaped() && Lines() == Loaded(buf)
    {
      hide Split, Lines;
      var r, c, i := 0, 0, 0;
      var full := false;
      SplitEmpty();
      assert buf[..0] == [];
      ghost var lines := Split(buf[..0]);
      while i < |buf| && !full
        invariant Shaped() && nLines == 1
        invariant 0 <= i <= |buf| && 0 <= r < ROWS && 0 <= c <= COLS
        invariant lines == Split(buf[..i])
        invariant full ==> r == ROWS - 1 && c == 0 && |lines| == ROWS + 1
        invariant !full ==> |lines| == r + 1 && grid[r][..c] == Shown(lines[r])
        invariant forall k :: 0 <= k < r ==> Row(k) == Shown(lines[k])
      {
        var b := buf[i];
        ReadOne(buf, i);
        lines := Split(buf[..i + 1]);
        if b == NEWLINE {
          lineLen[r] := c;
          r, c := r + 1, 0;
          if r >= ROWS {
            r := ROWS - 1;
            full := true;
          }
        } else if c < COLS {
          grid[r] := grid[r][c := b];
          c := c + 1;
        }
        i := i + 1;
      }
      if r < ROWS {
        lineLen[r] := c;
      }
      nLines := r + 1;
      LoadedSoFar(buf, i);
      if !full { assert buf[..i] == buf; }
      LinesAre(Loaded(buf));
    }

    // ---------- the cursor ----------

    method ClampCursor()
      requires Shaped()
      modifies this`curR, this`curC
      ensures Shaped() && Cursor() == Clamped(old(Cursor()), mode == Insert)
    {
      if curR >= nLines { curR := nLines - 1; }
      var maxC := if mode == Insert then lineLen[curR] else Last(Row(curR));
      if curC > maxC { curC := maxC; }
    }

    // ---------- moving cells and rows ----------

    // One row replaced: its cells and how many of them are used.
    method PutRow(r: nat, cells: seq<Byte>, len: nat)
      requires GridShaped() && r < ROWS && |cells| == COLS && len <= COLS
      modifies grid, lineLen
      ensures GridShaped() && Row(r) == cells[..len]
      ensures forall k :: 0 <= k < ROWS && k != r ==> Row(k) == old(Row(k))
      ensures forall k :: 0 <= k < ROWS && k != r ==> grid[k] == old(grid[k]) && lineLen[k] == old(lineLen[k])
    {
      grid[r] := cells;
      lineLen[r] := len;
    }

    // Shifts the rows below the cursor's down by one, leaving the row under it to fill.
    method RowsDown()
      requires Shaped() && nLines < ROWS && curR < nLines
      modifies grid, lineLen
      ensures Shaped()
      ensures forall k :: 0 <= k <= curR ==> Row(k) == old(Lines())[k]
      ensures forall k :: curR + 1 < k <= nLines ==> Row(k) == old(Lines())[k - 1]
      ensures grid[curR] == old(grid[curR]) && lineLen[curR] == old(lineLen[curR])
    {
      hide Lines;
      ghost var was := Lines();
      var r := nLines;
      while r > curR + 1
        invariant Shaped() && curR + 1 <= r <= nLines
        invariant grid[curR] == old(grid[curR]) && lineLen[curR] == old(lineLen[curR])
        invariant forall k :: 0 <= k <= r && k < nLines ==> Row(k) == was[k]
        invariant forall k :: r < k <= nLines ==> Row(k) == was[k - 1]
      {
        assert Row(r - 1) == was[r - 1];
        PutRow(r, grid[r - 1], lineLen[r - 1]);
        r := r - 1;
      }
    }

    // Shifts the rows below row `from` up by one over it.
    method RowsUp(from: nat)
      requires Shaped() && from < nLines
      modifies grid, lineLen
      ensures Shaped()
      ensures forall k :: 0 <= k < from ==> Row(k) == old(Lines())[k]
      ensures forall k :: from <= k < nLines - 1 ==> Row(k) == old(Lines())[k + 1]
    {
      hide Lines;
      ghost var was := Lines();
      for r := from to nLines - 1
        invariant Shaped()
        invariant forall k :: 0 <= k < from || r <= k < nLines ==> Row(k) == was[k]
        invariant forall k :: from <= k < r ==> Row(k) == was[k + 1]
      {
        assert Row(r + 1) == was[r + 1];
        PutRow(r, grid[r + 1], lineLen[r + 1]);
      }
    }

    // Moves the cursor row's cells from `at + del` on to the left by `del`.
    method ShiftLeft(at: nat, del: nat)
      requires Shaped() && curR < nLines && at + del <= lineLen[curR]
      modifies grid
      ensures Shaped()
      ensures grid[curR][..lineLen[curR] - del] == Removed(old(Row(curR)), at, at + del)
      ensures forall k :: 0 <= k < ROWS && k != curR ==> Row(k) == old(Row(k))
    {
      ghost var was := grid[curR];
      for i := at to lineLen[curR] - del
        invariant Shaped()
        invariant forall k :: 0 <= k < ROWS && k != curR ==> Row(k) == old(Row(k))
        invariant forall c :: at <= c < i ==> grid[curR][c] == was[c + del]
        invariant forall c :: 0 <= c < at || i <= c < COLS ==> grid[curR][c] == was[c]
      {
        grid[curR] := grid[curR][i := grid[curR][i + del]];
      }
    }

    // Takes `del` cells out of the cursor's row: the tail moves left and the
    // freed cells are blanked.
    method CloseGap(at: nat, del: nat)
      requires Shaped() && curR < nLines && at + del <= lineLen[curR]
      modifies grid, lineLen
      ensures Shaped()
      ensures Lines() == old(Lines()[curR := Removed(Row(curR), at, at + del)])
    {
      hide Lines;
      var len := lineLen[curR];
      ShiftLeft(at, del);
      ghost var kept := grid[curR][..len - del];
      for i := len - del to len
        modifies grid
        invariant Shaped() && grid[curR][..len - del] == kept
        invariant forall k :: 0 <= k < ROWS && k != curR ==> Row(k) == old(Row(k))
      {
        grid[curR] := grid[curR][i := SPACE];
      }
      Truncate(len - del);
      LinesAre(old(Lines()[curR := Removed(Row(curR), at, at + del)]));
    }

    // Copies the cursor's row to the end of the row above.
    method AppendToPrevious()
      requires Shaped() && 0 < curR < nLines && lineLen[curR - 1] + lineLen[curR] <= COLS
      modifies grid, lineLen
      ensures Shaped()
      ensures Lines() == old(Lines()[curR - 1 := Row(curR - 1) + Row(curR)])
    {
      hide Lines;
      ghost var was := grid[curR - 1];
      var prevLen, curLen := lineLen[curR - 1], lineLen[curR];
      for i := 0 to curLen
        modifies grid
        invariant Shaped()
        invariant forall k :: 0 <= k < nLines && k != curR - 1 ==> Row(k) == old(Row(k))
        invariant forall c :: 0 <= c < prevLen ==> grid[curR - 1][c] == was[c]
        invariant forall c :: 0 <= c < i ==> grid[curR - 1][prevLen + c] == Row(curR)[c]
      {
        grid[curR - 1] := grid[curR - 1][prevLen + i := grid[curR][i]];
      }
      lineLen[curR - 1] := prevLen + curLen;
      assert Row(curR - 1) == old(Row(curR - 1) + Row(curR));
      LinesAre(old(Lines()[curR - 1 := Row(curR - 1) + Row(curR)]));
    }

    // ---------- editing ----------

    method InsertChar(ch: Byte)
      requires Shaped() && Between(Cursor())
      modifies this`curC, this`dirty, grid, lineLen
      ensures Shaped() && Cursor() == Typed(old(Cursor()), ch)
      ensures dirty == (old(dirty) || old(lineLen[curR]) < COLS)
    {
      hide Lines, Inserted;
      ghost var was := grid[curR];
      var len := lineLen[curR];
      if len >= COLS { return; }
      var i := len;
      while i > curC
        modifies grid
        invariant Shaped() && curC <= i <= len && lineLen[curR] == len
        invariant forall k :: 0 <= k < nLines && k != curR ==> Row(k) == old(Row(k))
        invariant forall c :: i < c <= len ==> grid[curR][c] == was[c - 1]
        invariant forall c :: 0 <= c < i ==> grid[curR][c] == was[c]
      {
        grid[curR] := grid[curR][i := grid[curR][i - 1]];
        i := i - 1;
      }
      grid[curR] := grid[curR][curC := ch];
      lineLen[curR] := lineLen[curR] + 1;
      OneInserted(old(Row(curR)), curC, ch, Row(curR));
      LinesAre(old(Lines()[curR := Inserted(Row(curR), curC, [ch])]));
      curC := curC + 1;
      dirty := true;
    }

    // A blank row that begins with the tail of the cursor's.
    method TailRow(start: nat, len: nat) returns (newLine: seq<Byte>)
      requires Shaped() && curR < nLines && start + len == |Row(curR)|
      ensures |newLine| == COLS && newLine[..len] == Row(curR)[start..]
    {
      newLine := BlankRow();
      for i := 0 to len
        invariant |newLine| == COLS
        invariant forall c :: 0 <= c < i ==> newLine[c] == grid[curR][start + c]
      {
        newLine := newLine[i := grid[curR][start + i]];
      }
    }

    method Truncate(len: nat)
      requires GridShaped() && curR < ROWS && len <= |Row(curR)|
      modifies lineLen
      ensures GridShaped() && Row(curR) == old(Row(curR))[..len]
      ensures forall k :: 0 <= k < ROWS && k != curR ==> Row(k) == old(Row(k))
    {
      lineLen[curR] := len;
    }

    method InsertNewline()
      requires Shaped() && Between(Cursor())
      modifies this`nLines, this`curR, this`curC, this`dirty, grid, lineLen
      ensures Shaped() && Cursor() == Entered(old(Cursor()))
      ensures dirty == (old(dirty) || old(nLines) < ROWS)
    {
      hide GridShaped, Lines, Row, CurLineLen, FitsScreen, Entered;
      NoRoom(Cursor());
      if nLines >= ROWS { return; }
      ghost var was := Cursor();
      RowsDown();
      var tailStart := curC;
      var tailLen := CurLineLen() - tailStart;
      var newLine := TailRow(tailStart, tailLen);
      PutRow(curR + 1, newLine, tailLen);
      Truncate(tailStart);
      nLines := nLines + 1;
      EnteredLines(was, Lines());
      curR := curR + 1;
      curC := 0;
      dirty := true;
    }

    method Backspace()
      requires Shaped() && Between(Cursor())
      modifies this`nLines, this`curR, this`curC, this`dirty, grid, lineLen
      ensures Shaped() && Cursor() == Erased(old(Cursor()))
      ensures dirty == (old(dirty) || Cursor() != old(Cursor()))
    {
      hide Lines;
      if curC > 0 {
        CloseGap(curC - 1, 1);
        curC := curC - 1;
        dirty := true;
      } else if curR > 0 {
        var prevLen := lineLen[curR - 1];
        var curLen := lineLen[curR];
        if prevLen + curLen <= COLS {
          AppendToPrevious();
          RowsUp(curR);
          nLines := nLines - 1;
          LinesAre(Erased(old(Cursor())).lines);
          curR := curR - 1;
          curC := prevLen;
          dirty := true;
        }
      }
    }

    method DeleteChar()
      requires Shaped() && Between(Cursor())
      modifies this`curC, this`dirty, grid, lineLen
      ensures Shaped()
      ensures Cursor() == if old(curC < |Cur(Cursor())|) then old(CutTo(Cursor(), curC + 1)) else old(Cursor())
      ensures dirty == (old(dirty) || old(curC < |Cur(Cursor())|))
    {
      hide Lines;
      assert CurLineLen() == lineLen[curR];
      if curC < lineLen[curR] {
        CloseGap(curC, 1);
        if curC > 0 && curC >= lineLen[curR] {
          curC := Last(Row(curR));
        }
        dirty := true;
      }
    }

    method DeleteLine()
      requires Shaped() && Between(Cursor())
      modifies this`nLines, this`curR, this`curC, this`dirty, grid, lineLen
      ensures Shaped() && Cursor() == LineDeleted(old(Cursor())) && dirty
    {
      hide Lines;
      if nLines <= 1 {
        PutRow(0, BlankRow(), 0);
        curC := 0;
        dirty := true;
        LinesAre([[]]);
        return;
      }
      RowsUp(curR);
      nLines := nLines - 1;
      LinesAre(LineDeleted(old(Cursor())).lines);
      if curR >= nLines { curR := nLines - 1; }
      curC := 0;
      dirty := true;
    }

    // The two scans of `delete_word`.
    method FindWordEnd() returns (end: nat)
      requires Shaped() && Between(Cursor())
      ensures end == WordEnd(Row(curR), curC)
    {
      hide Lines;
      var len := lineLen[curR];
      end := curC;
      while end < len && grid[curR][end] != SPACE
        invariant curC <= end <= len
        invariant PastInk(Row(curR), end) == PastInk(Row(curR), curC)
      {
        end := end + 1;
      }
      while end < len && grid[curR][end] == SPACE
        invariant curC <= end <= len
        invariant PastSpaces(Row(curR), end) == WordEnd(Row(curR), curC)
      {
        end := end + 1;
      }
    }

    method DeleteWord()
      requires Shaped() && Between(Cursor()) && mode == Normal
      modifies this`curR, this`curC, this`dirty, grid, lineLen
      ensures Shaped()
      ensures Cursor() == if old(curC < lineLen[curR]) then old(CutTo(Cursor(), WordEnd(Row(curR), curC)))
                          else old(Cursor())
      ensures dirty == (old(dirty) || old(curC < lineLen[curR]))
    {
      hide Lines, WordEnd;
      if curC >= lineLen[curR] { return; }
      var end := FindWordEnd();
      CloseGap(curC, end - curC);
      ClampCursor();
      dirty := true;
    }

    method OpenLineBelow()
      requires Shaped() && Between(Cursor())
      modifies this`nLines, this`curR, this`curC, this`dirty, grid, lineLen
      ensures Shaped() && Cursor() == Opened(old(Cursor()))
      ensures dirty == (old(dirty) || old(nLines) < ROWS)
    {
      hide GridShaped, Lines, Row, CurLineLen, FitsScreen, Opened;
      NoRoom(Cursor());
      if nLines >= ROWS { return; }
      ghost var was := Cursor();
      RowsDown();
      PutRow(curR + 1, BlankRow(), 0);
      nLines := nLines + 1;
      OpenedLines(was, Lines());
      curR := curR + 1;
      curC := 0;
      dirty := true;
    }

    // ---------- saving ----------

    // The lines joined by newlines; the limit on the buffer is never met.
    method Save()
      requires Valid()
      modifies this`saved, this`dirty
      ensures Valid() && State() == Saved(old(State()))
      ensures |saved| == |old(saved)| + 1 && |saved[|old(saved)|]| <= 1839
    {
      hide Lines, Join, FitsScreen;
      ghost var lines := Lines();
      SavedFits(lines);
      var out: seq<Byte> := [];
      for r := 0 to nLines
        modifies {}
        invariant r > 0 ==> out == Join(lines[..r]) + if r < nLines then [NEWLINE] else []
        invariant r == 0 ==> out == []
        invariant |out| <= (COLS + 1) * r
      {
        var len := lineLen[r];
        ghost var before := out;
        for c := 0 to len
          modifies {}
          invariant out == before + Row(r)[..c]
        {
          assert |out| == |before| + c && Row(r)[..c + 1] == Row(r)[..c] + [grid[r][c]];
          if |out| < FILE_MAX { out := out + [grid[r][c]]; }
        }
        assert out == before + lines[r];
        JoinNext(lines, r);
        if r + 1 < nLines && |out| < FILE_MAX { out := out + [NEWLINE]; }
      }
      assert lines[..nLines] == lines;
      assert out == Join(lines);
      saved := saved + [out];
      dirty := false;
    }

    // ---------- keys ----------

    // The key after `d`.
    method HandlePending(key: Byte)
      requires Valid() && mode == Normal && pending == Key('d')
      modifies this, grid, lineLen
      ensures Valid() && State() == PendingKey(old(State()), key)
    {
      hide Lines, CutTo, LineDeleted, WordEnd, Join, FitsScreen;
      PendingKeyKeeps(State(), key);
      pending := 0;
      if key == Key('d') {
        DeleteLine();
      } else if key == Key('w') {
        DeleteWord();
      }
      ClampCursor();
    }

    // The keys that only move the cursor.
    method MoveCursor(key: Byte)
      requires Valid() && mode == Normal
      modifies this`curR, this`curC
      ensures Shaped() && Cursor() == MoveKey(old(Cursor()), key)
    {
      hide Lines, FitsScreen;
      if key == Key('h') {
        if curC > 0 { curC := curC - 1; }
      } else if key == Key('l') {
        if curC + 1 < lineLen[curR] { curC := curC + 1; }
      } else if key == Key('j') {
        if curR + 1 < nLines { curR := curR + 1; ClampCursor(); }
      } else if key == Key('k') {
        if curR > 0 { curR := curR - 1; ClampCursor(); }
      } else if key == Key('0') {
        curC := 0;
      } else if key == Key('$') {
        curC := Last(Row(curR));
      }
    }

    method HandleNormal(key: Byte)
      requires Valid() && mode == Normal
      modifies this, grid, lineLen
      ensures Valid() && State() == NormalKey(old(State()), key)
    {
      hide GridShaped, Lines, Row, CurLineLen, MoveKey, PendingKey, CutTo, Opened, Join, FitsScreen;
      NormalKeyKeeps(State(), key);
      NoRoom(Cursor());
      var curLen := CurLineLen();
      if pending == Key('d') {
        HandlePending(key);
      } else if key == Key('i') {
        mode := Insert;
      } else if key == Key('a') {
        if curLen > 0 { curC := curC + 1; }
        mode := Insert;
      } else if key == Key('A') {
        curC := curLen;
        mode := Insert;
      } else if key == Key('I') {
        curC := 0;
        mode := Insert;
      } else if key == Key('o') {
        OpenLineBelow();
        mode := Insert;
      } else if key == Key('x') {
        DeleteChar();
      } else if key == Key('d') {
        pending := Key('d');
      } else if key == Key(':') {
        mode := Command;
        cmdLen := 0;
      } else {
        MoveCursor(key);
      }
    }

    method HandleInsert(key: Byte)
      requires Valid() && mode == Insert
      modifies this, grid, lineLen
      ensures Valid() && State() == InsertKey(old(State()), key)
    {
      hide Lines, Typed, Entered, Erased, Join, FitsScreen;
      InsertKeyKeeps(State(), key);
      NoRoom(Cursor());
      if key == KEY_ESC {
        mode := Normal;
        if curC > 0 { curC := curC - 1; }
        ClampCursor();
      } else if key == KEY_ENTER {
        InsertNewline();
      } else if key == KEY_BACKSPACE {
        Backspace();
      } else if Printable(key) {
        InsertChar(key);
      }
    }

    method HandleCommand(key: Byte)
      requires Valid() && mode == Command
      modifies this, cmd
      ensures Valid() && State() == CommandKey(old(State()), key)
    {
      hide Lines, Join, FitsScreen;
      if key == KEY_ESC {
        mode := Normal;
        cmdLen := 0;
      } else if key == KEY_ENTER {
        ExecCommand();
        mode := Normal;
        cmdLen := 0;
      } else if key == KEY_BACKSPACE {
        if cmdLen > 0 { cmdLen := cmdLen - 1; }
      } else if Printable(key) {
        if cmdLen < cmd.Length {
          cmd[cmdLen] := key;
          cmdLen := cmdLen + 1;
        }
      }
    }

    method ExecCommand()
      requires Valid()
      modifies this`saved, this`dirty, this`quit
      ensures Valid() && State() == Executed(old(State()))
    {
      hide GridShaped, Lines, Join, Between;
      var c := cmd[..cmdLen];
      if c == [Key('w')] {
        Save();
      } else if c == [Key('q')] {
        quit := true;
      } else if c == [Key('w'), Key('q')] || c == [Key('x')] {
        Save();
        quit := true;
      } else if c == [Key('q'), Key('!')] {
        quit := true;
      }
    }

    // One turn of the main loop.
    method Press(key: Byte)
      requires Valid()
      modifies this, grid, lineLen, cmd
      ensures Valid() && State() == Step(old(State()), key)
    {
      hide NormalKey, InsertKey, CommandKey, Legal;
      match mode
      case Normal => HandleNormal(key);
      case Insert => HandleInsert(key);
      case Command => HandleCommand(key);
    }

    // The main loop over the keys that arrive.
    method Run(keys: seq<Byte>)
      requires Valid()
      modifies this, grid, lineLen, cmd
      ensures Valid() && State() == Presses(old(State()), keys)
    {
      hide Step, Legal;
      var i := 0;
      while i < |keys| && !quit
        invariant i <= |keys| && Valid()
        invariant Presses(State(), keys[i..]) == Presses(old(State()), keys)
      {
        assert keys[i..][1..] == keys[i + 1..];
        Press(keys[i]);
        i := i + 1;
      }
    }

    // The lines, row by row.
    lemma LinesAre(lines: seq<Line>)
      requires Shaped() && |lines| == nLines
      requires forall r :: 0 <= r < nLines ==> Row(r) == lines[r]
      ensures Lines() == lines
    {
    }
  }

  // What is shown of a file with more lines than the screen is known once the
  // 23rd newline is read.
  lemma LoadedSoFar(buf: seq<Byte>, i: nat)
    requires i <= |buf|
    ensures var all := ShownAll(Split(buf[..i]));
            |all| > ROWS ==> Loaded(buf) == all[..ROWS - 1] + [[]]
  {
    hide Split;
    SplitGrows(buf, i);
  }

  lemma BlankIsLegal()
    ensures Legal(Session(Doc([[]], 0, 0), Normal, 0, [], false, false, []))
  {
  }

  lemma OneInserted(line: Line, at: nat, ch: Byte, after: Line)
    requires at <= |line| && |after| == |line| + 1 && after[at] == ch
    requires forall c :: 0 <= c < at ==> after[c] == line[c]
    requires forall c :: at < c < |after| ==> after[c] == line[c - 1]
    ensures after == Inserted(line, at, [ch])
  {
  }

  lemma OpenedLines(d: Doc, after: seq<Line>)
    requires Between(d) && |d.lines| < ROWS && |after| == |d.lines| + 1 && after[d.row + 1] == []
    requires forall k :: 0 <= k <= d.row ==> after[k] == d.lines[k]
    requires forall k :: d.row + 1 < k < |after| ==> after[k] == d.lines[k - 1]
    ensures Opened(d) == Doc(after, d.row + 1, 0)
  {
    assert after[..d.row + 1] == d.lines[..d.row + 1];
    assert after[d.row + 2..] == d.lines[d.row + 1..];
  }

  lemma EnteredLines(d: Doc, after: seq<Line>)
    requires Between(d) && |d.lines| < ROWS && |after| == |d.lines| + 1
    requires forall k :: 0 <= k < d.row ==> after[k] == d.lines[k]
    requires after[d.row] == Cur(d)[..d.col] && after[d.row + 1] == Cur(d)[d.col..]
    requires forall k :: d.row + 1 < k < |after| ==> after[k] == d.lines[k - 1]
    ensures Entered(d) == Doc(after, d.row + 1, 0)
  {
    assert after[..d.row] == d.lines[..d.row];
    assert after[d.row + 2..] == d.lines[d.row + 1..];
  }

  lemma JoinNext(lines: seq<Line>, r: nat)
    requires r < |lines|
    ensures Join(lines[..r + 1]) == if r == 0 then lines[0] else Join(lines[..r]) + [NEWLINE] + lines[r]
  {
    assert lines[..r + 1][..r] == lines[..r];
  }

  lemma ReadOne(buf: seq<Byte>, i: nat)
    requires i < |buf|
    ensures var before := Split(buf[..i]);
            Split(buf[..i + 1]) == if buf[i] == NEWLINE then before + [[]]
                                   else before[|before| - 1 := before[|before| - 1] + [buf[i]]]
  {
    assert buf[..i + 1][..i] == buf[..i];
  }

  // Lines once ended do not change as more is read.
  lemma {:induction false} SplitGrows(buf: seq<Byte>, i: nat)
    requires i <= |buf|
    ensures |Split(buf)| >= |Split(buf[..i])|
    ensures forall k :: 0 <= k < |Split(buf[..i])| - 1 ==> Split(buf)[k] == Split(buf[..i])[k]
    decreases |buf| - i
  {
    if i == |buf| {
      assert buf[..i] == buf;
    } else {
      ReadOne(buf, i);
      SplitGrows(buf, i + 1);
    }
  }
}
