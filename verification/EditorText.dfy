// The editor's text: lines of bytes, the bytes of a file, and a cursor.
//
// A text is a sequence of lines.  Written to a file, its lines are joined by
// newlines, and the cursor is an offset into those bytes.  The second half says
// what each editing operation does to the lines and proves what it does to the
// file: a key inserts one byte at the cursor, or removes one stretch of bytes.
module EditorText {
  import opened Bits

  const ROWS: nat := 23
  const COLS: nat := 79
  const NEWLINE: Byte := 10
  const SPACE: Byte := 32
  const FILE_MAX: nat := 6144

  type Line = seq<Byte>

  predicate OneLine(s: seq<Byte>) { NEWLINE !in s }

  predicate FitsScreen(lines: seq<Line>) {
    && 1 <= |lines| <= ROWS
    && forall r :: 0 <= r < |lines| ==> |lines[r]| <= COLS && OneLine(lines[r])
  }

  // ---------- lines and files ----------

  function Join(lines: seq<Line>): seq<Byte> {
    if lines == [] then []
    else if |lines| == 1 then lines[0]
    else Join(lines[..|lines| - 1]) + [NEWLINE] + lines[|lines| - 1]
  }

  function Split(bytes: seq<Byte>): (lines: seq<Line>)
    ensures |lines| >= 1
  {
    if bytes == [] then [[]]
    else
      var before := Split(bytes[..|bytes| - 1]);
      var b := bytes[|bytes| - 1];
      if b == NEWLINE then before + [[]]
      else before[|before| - 1 := before[|before| - 1] + [b]]
  }

  function Newlines(bytes: seq<Byte>): nat {
    if bytes == [] then 0
    else Newlines(bytes[..|bytes| - 1]) + if bytes[|bytes| - 1] == NEWLINE then 1 else 0
  }

  lemma {:induction false} SplitCounts(bytes: seq<Byte>)
    ensures |Split(bytes)| == Newlines(bytes) + 1
    ensures forall r :: 0 <= r < |Split(bytes)| ==> OneLine(Split(bytes)[r])
  {
    if bytes != [] {
      SplitCounts(bytes[..|bytes| - 1]);
    }
  }

  // Lengthening the last line lengthens the file.
  lemma JoinExtends(lines: seq<Line>, more: seq<Byte>)
    requires |lines| >= 1
    ensures Join(lines[|lines| - 1 := lines[|lines| - 1] + more]) == Join(lines) + more
  {
    var longer := lines[|lines| - 1 := lines[|lines| - 1] + more];
    assert longer[..|lines| - 1] == lines[..|lines| - 1];
  }

  lemma {:induction false} JoinSplit(bytes: seq<Byte>)
    ensures Join(Split(bytes)) == bytes
  {
    if bytes != [] {
      var init, b := bytes[..|bytes| - 1], bytes[|bytes| - 1];
      var before := Split(init);
      JoinSplit(init);
      assert bytes == init + [b];
      if b == NEWLINE {
        assert (before + [[]])[..|before|] == before;
        assert Join(before + [[]]) == Join(before) + [NEWLINE] + [];
      } else {
        JoinExtends(before, [b]);
      }
    }
  }

  // Reading more of a line.
  lemma {:induction false} SplitAppends(bytes: seq<Byte>, more: seq<Byte>)
    requires OneLine(more)
    ensures var lines := Split(bytes);
            Split(bytes + more) == lines[|lines| - 1 := lines[|lines| - 1] + more]
  {
    var lines := Split(bytes);
    var last := |lines| - 1;
    if more == [] {
      assert bytes + more == bytes;
      assert lines[last] + more == lines[last];
    } else {
      var init, b := more[..|more| - 1], more[|more| - 1];
      SplitAppends(bytes, init);
      assert (bytes + more)[..|bytes + more| - 1] == bytes + init;
      assert more == init + [b] && b != NEWLINE;
      assert lines[last] + more == (lines[last] + init) + [b];
    }
  }

  lemma SplitEmpty()
    ensures Split([]) == [[]]
  {
  }

  lemma SplitNewline(bytes: seq<Byte>)
    ensures Split(bytes + [NEWLINE]) == Split(bytes) + [[]]
  {
    assert (bytes + [NEWLINE])[..|bytes|] == bytes;
  }

  lemma {:induction false} SplitJoin(lines: seq<Line>)
    requires |lines| >= 1
    requires forall r :: 0 <= r < |lines| ==> OneLine(lines[r])
    ensures Split(Join(lines)) == lines
  {
    hide Split;
    var n := |lines|;
    if n == 1 {
      SplitEmpty();
      SplitAppends([], lines[0]);
      assert [] + lines[0] == lines[0];
    } else {
      var first := Join(lines[..n - 1]);
      SplitJoin(lines[..n - 1]);
      SplitNewline(first);
      SplitAppends(first + [NEWLINE], lines[n - 1]);
      assert [] + lines[n - 1] == lines[n - 1];
      assert lines == (lines[..n - 1] + [[]])[n - 1 := lines[n - 1]];
    }
  }

  // Two texts that are saved as the same bytes are the same text.
  lemma JoinInjective(a: seq<Line>, b: seq<Line>)
    requires FitsScreen(a) && FitsScreen(b) && Join(a) == Join(b)
    ensures a == b
  {
    SplitJoin(a);
    SplitJoin(b);
  }

  lemma JoinLast(lines: seq<Line>, last: Line)
    requires lines != []
    ensures Join(lines + [last]) == Join(lines) + [NEWLINE] + last
  {
    assert (lines + [last])[..|lines|] == lines;
  }

  lemma {:induction false} JoinConcat(a: seq<Line>, b: seq<Line>)
    requires a != [] && b != []
    ensures Join(a + b) == Join(a) + [NEWLINE] + Join(b)
  {
    hide Join;
    var init, last := b[..|b| - 1], b[|b| - 1];
    assert b == init + [last];
    assert a + b == (a + init) + [last];
    JoinLast(a + init, last);
    if init == [] {
      assert a + init == a && b == [last];
      JoinOne(last);
    } else {
      JoinConcat(a, init);
      JoinLast(init, last);
    }
  }

  lemma {:induction false} JoinLength(lines: seq<Line>)
    requires |lines| >= 1
    requires forall r :: 0 <= r < |lines| ==> |lines[r]| <= COLS
    ensures |Join(lines)| <= (COLS + 1) * |lines| - 1
  {
    if |lines| > 1 {
      JoinLength(lines[..|lines| - 1]);
    }
  }

  // A saved text always fits a file.
  lemma SavedFits(lines: seq<Line>)
    requires FitsScreen(lines)
    ensures |Join(lines)| <= 1839 < FILE_MAX
  {
    JoinLength(lines);
  }

  // ---------- what opening a file shows ----------

  function Shown(line: Line): Line {
    if |line| <= COLS then line else line[..COLS]
  }

  function ShownAll(lines: seq<Line>): seq<Line> {
    seq(|lines|, r requires 0 <= r < |lines| => Shown(lines[r]))
  }

  // The lines cut at the right edge of the screen.  Of a file with more lines
  // than the screen, 22 are kept and an empty one follows.
  function Loaded(bytes: seq<Byte>): seq<Line> {
    var all := ShownAll(Split(bytes));
    if |all| <= ROWS then all else all[..ROWS - 1] + [[]]
  }

  lemma LoadedFits(bytes: seq<Byte>)
    ensures FitsScreen(Loaded(bytes))
  {
    hide Split;
    SplitCounts(bytes);
    var all := ShownAll(Split(bytes));
    forall r | 0 <= r < |all| ensures |all[r]| <= COLS && OneLine(all[r]) { assert OneLine(Split(bytes)[r]); }
  }

  // Opening a saved text gives the text back.
  lemma LoadAfterSave(lines: seq<Line>)
    requires FitsScreen(lines)
    ensures Loaded(Join(lines)) == lines
  {
    SplitJoin(lines);
  }

  // Saving an opened file gives the file back exactly when it has at most 22
  // newlines and no line is longer than the screen is wide.
  lemma SaveAfterLoad(bytes: seq<Byte>)
    ensures Join(Loaded(bytes)) == bytes
            <==> Newlines(bytes) <= ROWS - 1 && forall r :: 0 <= r < |Split(bytes)| ==> |Split(bytes)[r]| <= COLS
  {
    var lines := Split(bytes);
    SplitCounts(bytes);
    LoadedFits(bytes);
    SplitJoin(Loaded(bytes));
    JoinSplit(bytes);
    if |lines| <= ROWS && forall r :: 0 <= r < |lines| ==> |lines[r]| <= COLS {
      assert Loaded(bytes) == lines;
    } else if Join(Loaded(bytes)) == bytes {
      assert Loaded(bytes) == lines;
    }
  }

  // The 23rd line of a file with one newline too many is not shown.
  lemma LastRowIsDropped(bytes: seq<Byte>)
    requires Newlines(bytes) >= ROWS
    ensures |Loaded(bytes)| == ROWS && Loaded(bytes)[ROWS - 1] == []
    ensures forall r :: 0 <= r < ROWS - 1 ==> Loaded(bytes)[r] == Shown(Split(bytes)[r])
  {
    SplitCounts(bytes);
  }

  // ---------- text with a cursor ----------

  datatype Doc = Doc(lines: seq<Line>, row: nat, col: nat)

  // Between the characters of a line, as when typing.
  predicate Between(d: Doc) {
    FitsScreen(d.lines) && d.row < |d.lines| && d.col <= |d.lines[d.row]|
  }

  function Last(line: Line): nat { if line == [] then 0 else |line| - 1 }

  // On a character, or at the start of an empty line, as when moving about.
  predicate On(d: Doc) {
    Between(d) && d.col <= Last(d.lines[d.row])
  }

  function Cur(d: Doc): Line
    requires d.row < |d.lines|
  {
    d.lines[d.row]
  }

  function Clamped(d: Doc, inserting: bool): Doc
    requires d.lines != []
  {
    var row := if d.row < |d.lines| then d.row else |d.lines| - 1;
    var most := if inserting then |d.lines[row]| else Last(d.lines[row]);
    Doc(d.lines, row, if d.col > most then most else d.col)
  }

  // Everything before the cursor's line, and everything after it.
  function Above(lines: seq<Line>, row: nat): seq<Byte>
    requires row <= |lines|
  {
    if row == 0 then [] else Join(lines[..row]) + [NEWLINE]
  }

  function Below(lines: seq<Line>, row: nat): seq<Byte>
    requires row < |lines|
  {
    if row == |lines| - 1 then [] else [NEWLINE] + Join(lines[row + 1..])
  }

  function Offset(d: Doc): nat
    requires d.row < |d.lines|
  {
    |Above(d.lines, d.row)| + d.col
  }

  lemma JoinOne(line: Line)
    ensures Join([line]) == line
  {
  }

  lemma FileFrom(lines: seq<Line>, row: nat)
    requires row < |lines|
    ensures Join(lines) == Above(lines, row) + Join(lines[row..])
  {
    hide Join;
    if row == 0 {
      assert lines[row..] == lines;
    } else {
      JoinConcat(lines[..row], lines[row..]);
      assert lines == lines[..row] + lines[row..];
    }
  }

  lemma FileBelow(lines: seq<Line>, row: nat)
    requires row < |lines|
    ensures Join(lines[row..]) == lines[row] + Below(lines, row)
  {
    hide Join;
    JoinOne(lines[row]);
    if row + 1 < |lines| {
      JoinConcat([lines[row]], lines[row + 1..]);
      assert lines[row..] == [lines[row]] + lines[row + 1..];
    } else {
      assert lines[row..] == [lines[row]];
    }
  }

  lemma BesidesRow(lines: seq<Line>, row: nat)
    requires row < |lines|
    ensures Above(lines, row) == if row == 0 then [] else Join(lines[..row]) + [NEWLINE]
    ensures Below(lines, row) == if row == |lines| - 1 then [] else [NEWLINE] + Join(lines[row + 1..])
  {
    hide Join;
  }

  lemma FileAround(lines: seq<Line>, row: nat)
    requires row < |lines|
    ensures Join(lines) == Above(lines, row) + lines[row] + Below(lines, row)
  {
    hide Join, Above, Below;
    FileFrom(lines, row);
    FileBelow(lines, row);
    var above, line, below := Above(lines, row), lines[row], Below(lines, row);
    assert above + (line + below) == above + line + below;
  }

  // Rewriting one line rewrites that stretch of the file.
  lemma LineRewritten(lines: seq<Line>, row: nat, line: Line)
    requires row < |lines|
    ensures Join(lines[row := line]) == Above(lines, row) + line + Below(lines, row)
    ensures Above(lines[row := line], row) == Above(lines, row)
  {
    var after := lines[row := line];
    FileAround(after, row);
    assert after[..row] == lines[..row];
    assert after[row + 1..] == lines[row + 1..];
  }

  // ---------- bytes ----------

  function Inserted(s: seq<Byte>, at: nat, b: seq<Byte>): seq<Byte>
    requires at <= |s|
  {
    s[..at] + b + s[at..]
  }

  function Removed(s: seq<Byte>, from: nat, to: nat): seq<Byte>
    requires from <= to <= |s|
  {
    s[..from] + s[to..]
  }

  lemma InsertedInside(above: seq<Byte>, line: Line, below: seq<Byte>, col: nat, b: seq<Byte>)
    requires col <= |line|
    ensures above + Inserted(line, col, b) + below == Inserted(above + line + below, |above| + col, b)
  {
  }

  lemma RemovedInside(above: seq<Byte>, line: Line, below: seq<Byte>, from: nat, to: nat)
    requires from <= to <= |line|
    ensures above + Removed(line, from, to) + below == Removed(above + line + below, |above| + from, |above| + to)
  {
  }

  // ---------- editing ----------

  function Typed(d: Doc, ch: Byte): Doc
    requires Between(d)
  {
    if |Cur(d)| >= COLS then d
    else Doc(d.lines[d.row := Inserted(Cur(d), d.col, [ch])], d.row, d.col + 1)
  }

  lemma TypedInserts(d: Doc, ch: Byte)
    requires Between(d) && |Cur(d)| < COLS && ch != NEWLINE
    ensures Between(Typed(d, ch))
    ensures Offset(d) <= |Join(d.lines)|
    ensures Join(Typed(d, ch).lines) == Inserted(Join(d.lines), Offset(d), [ch])
    ensures Offset(Typed(d, ch)) == Offset(d) + 1
  {
    hide Join;
    var line := Inserted(Cur(d), d.col, [ch]);
    FileAround(d.lines, d.row);
    LineRewritten(d.lines, d.row, line);
    InsertedInside(Above(d.lines, d.row), Cur(d), Below(d.lines, d.row), d.col, [ch]);
  }

  function Entered(d: Doc): Doc
    requires Between(d)
  {
    if |d.lines| >= ROWS then d
    else Doc(d.lines[..d.row] + [Cur(d)[..d.col], Cur(d)[d.col..]] + d.lines[d.row + 1..], d.row + 1, 0)
  }

  lemma EnteredInserts(d: Doc)
    requires Between(d) && |d.lines| < ROWS
    ensures Between(Entered(d))
    ensures Offset(d) <= |Join(d.lines)|
    ensures Join(Entered(d).lines) == Inserted(Join(d.lines), Offset(d), [NEWLINE])
    ensures Offset(Entered(d)) == Offset(d) + 1
  {
    hide Join;
    var e := Entered(d);
    var row, above, below := d.row, Above(d.lines, d.row), Below(d.lines, d.row);
    FileAround(d.lines, row);
    FileAround(e.lines, row + 1);
    LineRewritten(e.lines, row, Cur(d)[..d.col]);
    assert e.lines[..row + 1][..row] == d.lines[..row];
    assert e.lines[..row] == d.lines[..row];
    FileAround(e.lines[..row + 1], row);
    assert Below(e.lines[..row + 1], row) == [];
    assert e.lines[row + 2..] == d.lines[row + 1..];
    InsertedInside(above, Cur(d), below, d.col, [NEWLINE]);
  }

  function Erased(d: Doc): Doc
    requires Between(d)
  {
    if d.col > 0 then Doc(d.lines[d.row := Removed(Cur(d), d.col - 1, d.col)], d.row, d.col - 1)
    else if d.row == 0 || |d.lines[d.row - 1]| + |Cur(d)| > COLS then d
    else
      var above := d.lines[d.row - 1];
      Doc(d.lines[..d.row - 1] + [above + Cur(d)] + d.lines[d.row + 1..], d.row - 1, |above|)
  }

  // A line and the one below it are two lines split at a cursor.
  lemma MergeIsSplitBack(d: Doc)
    requires Between(d) && d.col == 0 && d.row > 0 && |d.lines[d.row - 1]| + |Cur(d)| <= COLS
    ensures Between(Erased(d)) && |Erased(d).lines| < ROWS && Entered(Erased(d)) == d
  {
    var e := Erased(d);
    assert Cur(e)[..e.col] == d.lines[d.row - 1];
    assert Cur(e)[e.col..] == Cur(d);
    assert Entered(e).lines == d.lines;
  }

  // Backspace removes the byte before the cursor, be it a character or a newline.
  lemma ErasedRemoves(d: Doc)
    requires Between(d)
    ensures Between(Erased(d))
    ensures Erased(d) == d <==> Offset(d) == 0 || (d.col == 0 && |d.lines[d.row - 1]| + |Cur(d)| > COLS)
    ensures Erased(d) != d ==>
              && 1 <= Offset(d) <= |Join(d.lines)|
              && Join(Erased(d).lines) == Removed(Join(d.lines), Offset(d) - 1, Offset(d))
              && Offset(Erased(d)) == Offset(d) - 1
  {
    hide Join;
    FileAround(d.lines, d.row);
    var above, below := Above(d.lines, d.row), Below(d.lines, d.row);
    if d.col > 0 {
      LineRewritten(d.lines, d.row, Removed(Cur(d), d.col - 1, d.col));
      RemovedInside(above, Cur(d), below, d.col - 1, d.col);
    } else if d.row > 0 && |d.lines[d.row - 1]| + |Cur(d)| <= COLS {
      MergeIsSplitBack(d);
      EnteredInserts(Erased(d));
    }
  }

  // Splitting a line and stepping back over the newline restores text and cursor.
  lemma SplitThenErase(d: Doc)
    requires Between(d) && |d.lines| < ROWS
    ensures Between(Entered(d)) && Erased(Entered(d)) == d
  {
    hide Join, Above, Offset;
    var e := Entered(d);
    EnteredInserts(d);
    assert e.lines[e.row - 1] + Cur(e) == Cur(d);
    assert e.lines[..e.row - 1] == d.lines[..d.row];
    assert e.lines[e.row + 1..] == d.lines[d.row + 1..];
    assert d.lines[..d.row] + [Cur(d)] + d.lines[d.row + 1..] == d.lines;
  }

  lemma TypeThenErase(d: Doc, ch: Byte)
    requires Between(d) && |Cur(d)| < COLS && ch != NEWLINE
    ensures Between(Typed(d, ch)) && Erased(Typed(d, ch)) == d
  {
    TypedInserts(d, ch);
    var line := Inserted(Cur(d), d.col, [ch]);
    assert Removed(line, d.col, d.col + 1) == Cur(d);
    assert d.lines[d.row := line][d.row := Cur(d)] == d.lines;
  }

  // Removing a stretch of the cursor's line and stepping back onto the text.
  function CutTo(d: Doc, to: nat): Doc
    requires Between(d) && d.col <= to <= |Cur(d)|
  {
    Clamped(d.(lines := d.lines[d.row := Removed(Cur(d), d.col, to)]), false)
  }

  lemma CutRemoves(d: Doc, to: nat)
    requires Between(d) && d.col <= to <= |Cur(d)|
    ensures On(CutTo(d, to)) && CutTo(d, to).row == d.row
    ensures Offset(d) + to - d.col <= |Join(d.lines)|
    ensures Join(CutTo(d, to).lines) == Removed(Join(d.lines), Offset(d), Offset(d) + to - d.col)
    ensures CutTo(d, to).col == if to < |Cur(d)| || d.col == 0 then d.col else d.col - 1
  {
    hide Join;
    FileAround(d.lines, d.row);
    LineRewritten(d.lines, d.row, Removed(Cur(d), d.col, to));
    RemovedInside(Above(d.lines, d.row), Cur(d), Below(d.lines, d.row), d.col, to);
  }

  // The end of a word: past the characters that are not spaces, then past the spaces.
  function PastInk(line: Line, at: nat): (to: nat)
    requires at <= |line|
    ensures at <= to <= |line|
    ensures forall k :: at <= k < to ==> line[k] != SPACE
    ensures to < |line| ==> line[to] == SPACE
    decreases |line| - at
  {
    if at == |line| || line[at] == SPACE then at else PastInk(line, at + 1)
  }

  function PastSpaces(line: Line, at: nat): (to: nat)
    requires at <= |line|
    ensures at <= to <= |line|
    ensures forall k :: at <= k < to ==> line[k] == SPACE
    ensures to < |line| ==> line[to] != SPACE
    decreases |line| - at
  {
    if at == |line| || line[at] != SPACE then at else PastSpaces(line, at + 1)
  }

  // A word from `at` to `ink` and the spaces after it up to `to`, none of either left out.
  predicate WordAndSpaces(line: Line, at: nat, ink: nat, to: nat) {
    && at <= ink <= to <= |line|
    && (forall k | at <= k < ink :: line[k] != SPACE)
    && (forall k | ink <= k < to :: line[k] == SPACE)
    && (to < |line| ==> ink < to && line[to] != SPACE)
  }

  function WordEnd(line: Line, at: nat): (to: nat)
    requires at <= |line|
    ensures at <= to <= |line| && exists ink :: WordAndSpaces(line, at, ink, to)
  {
    var ink := PastInk(line, at);
    var to := PastSpaces(line, ink);
    assert WordAndSpaces(line, at, ink, to);
    to
  }

  // Deleting the cursor's line, or emptying the only one.
  function LineDeleted(d: Doc): Doc
    requires Between(d)
  {
    if |d.lines| == 1 then Doc([[]], 0, 0)
    else
      var rest := d.lines[..d.row] + d.lines[d.row + 1..];
      Doc(rest, if d.row < |rest| then d.row else |rest| - 1, 0)
  }

  // The cursor is then at the start of the line that was below, or of the last one.
  lemma LineDeletedCursor(d: Doc)
    requires Between(d)
    ensures LineDeleted(d).col == 0 && LineDeleted(d).row < |LineDeleted(d).lines|
    ensures if d.row + 1 < |d.lines| then LineDeleted(d).row == d.row && Cur(LineDeleted(d)) == d.lines[d.row + 1]
            else LineDeleted(d).row == (if d.row == 0 then 0 else d.row - 1)
                 && LineDeleted(d).row + 1 == |LineDeleted(d).lines|
    ensures |d.lines| == 1 ==> LineDeleted(d).lines == [[]]
  {
  }

  // The bytes of the line go, with the newline after it or, for the last line, before it.
  lemma LineDeletedRemoves(d: Doc)
    requires Between(d)
    ensures On(LineDeleted(d))
    ensures var at, all := |Above(d.lines, d.row)|, Join(d.lines);
            if |d.lines| == 1 then Join(LineDeleted(d).lines) == []
            else if d.row < |d.lines| - 1 then
              at + |Cur(d)| + 1 <= |all| && Join(LineDeleted(d).lines) == Removed(all, at, at + |Cur(d)| + 1)
            else
              1 <= at <= |all| && Join(LineDeleted(d).lines) == Removed(all, at - 1, |all|)
  {
    hide Join, Above, Below;
    FileAround(d.lines, d.row);
    BesidesRow(d.lines, d.row);
    var head, tail := d.lines[..d.row], d.lines[d.row + 1..];
    var above, line, below := Above(d.lines, d.row), Cur(d), Below(d.lines, d.row);
    var all := above + line + below;
    if |d.lines| == 1 {
      JoinOne([]);
    } else if tail == [] {
      assert head + tail == head;
      assert Removed(all, |above| - 1, |all|) == Join(head);
    } else {
      assert below == [NEWLINE] + Join(tail);
      assert Removed(all, |above|, |above| + |line| + 1) == above + Join(tail);
      if head == [] {
        assert head + tail == tail;
      } else {
        JoinConcat(head, tail);
      }
    }
  }

  // A new empty line under the cursor's line: a newline at the end of the line.
  function Opened(d: Doc): Doc
    requires Between(d)
  {
    if |d.lines| >= ROWS then d
    else Doc(d.lines[..d.row + 1] + [[]] + d.lines[d.row + 1..], d.row + 1, 0)
  }

  // A full screen takes no more lines, a full line no more characters.
  lemma NoRoom(d: Doc)
    requires Between(d)
    ensures |d.lines| >= ROWS ==> Opened(d) == d && Entered(d) == d
    ensures |Cur(d)| >= COLS ==> forall ch :: Typed(d, ch) == d
  {
  }

  lemma OpenedIsSplitAtEnd(d: Doc)
    requires Between(d)
    ensures |d.lines| < ROWS ==> Opened(d) == Entered(d.(col := |Cur(d)|))
    ensures Between(Opened(d))
  {
    var e := d.(col := |Cur(d)|);
    if |d.lines| < ROWS {
      assert Cur(e)[..e.col] == Cur(d);
      assert Cur(e)[e.col..] == [];
      assert Opened(d).lines == Entered(e).lines;
      EnteredInserts(e);
    }
  }
}
