/** The VGA text console (src/b32_print.cpp): 25 rows of 80 cells of two bytes, scrolled by half a
    screen, against the unbounded text wrapped at 80 columns. */
module Console {
  import opened Words
  import opened Memory

  const ROWS := 25
  const LAST_ROW := 24
  const COLUMNS := 80
  const SCREEN_BYTES := 4000
  const SCROLL_ROWS := 12 // 25 / 2
  const WHITE := 0x07

  datatype Screen = Screen(bytes: seq<Byte>, row: nat, column: nat, halted: bool)

  function Cell(row: nat, column: nat): nat { 2 * (80 * row + column) }

  predicate IsPrintable(c: char) { c == '\n' || 32 <= c as int <= 126 }

  // ---------------------------------------------------------------- the console

  function OutputChar(bytes: seq<Byte>, c: Byte, property: Byte, row: nat, column: nat): (r: seq<Byte>)
    requires |bytes| == SCREEN_BYTES && row < ROWS && column < COLUMNS
    ensures |r| == SCREEN_BYTES
  {
    bytes[Cell(row, column) := c][Cell(row, column) + 1 := property]
  }

  /** scroll_up: the overlapping copy of rows 12..24 to the top, then the clearing of rows 13..24. */
  function ScrollBytes(bytes: seq<Byte>): (r: seq<Byte>)
    requires |bytes| == SCREEN_BYTES
    ensures |r| == SCREEN_BYTES
  {
    Zeroed(ForwardCopy(bytes, 0, 160 * SCROLL_ROWS, 2080), 2080, 1920)
  }

  function ScrollUp(s: Screen): Screen
    requires |s.bytes| == SCREEN_BYTES
  {
    s.(bytes := ScrollBytes(s.bytes), row := ROWS - SCROLL_ROWS, column := 0)
  }

  /** print_c */
  function PrintChar(s: Screen, c: char): Screen
    requires |s.bytes| == SCREEN_BYTES && s.row < ROWS && s.column < COLUMNS
  {
    if !IsPrintable(c) then s.(halted := true)
    else if c == '\n' then
      var t := s.(row := (s.row + 1) % ROWS, column := 0);
      if t.row == 0 then ScrollUp(t) else t
    else
      var bytes := OutputChar(s.bytes, c as int, WHITE, s.row, s.column);
      var wraps := s.column + 1 == COLUMNS;
      var t := s.(bytes := bytes, column := if wraps then 0 else s.column + 1,
                  row := if wraps then s.row + 1 else s.row);
      if t.row == ROWS then ScrollUp(t) else t
  }

  // ---------------------------------------------------------------- reference: wrapped lines

  type Line = seq<char>

  /** Characters of `t` before its first newline, at most 80. */
  function LineLength(t: seq<char>, k: nat): (r: nat)
    requires k <= |t| && k <= 80
    ensures k <= r <= |t| && r <= 80
    ensures r < |t| && r < 80 ==> t[r] == '\n'
    ensures forall i :: k <= i < r ==> t[i] != '\n'
    decreases |t| - k
  {
    if k == 80 || k == |t| || t[k] == '\n' then k else LineLength(t, k + 1)
  }

  /** The text broken at newlines and after every 80th character; a full line starts a new one. */
  function Wrap(t: seq<char>): (lines: seq<Line>)
    ensures |lines| >= 1
    decreases |t|
  {
    var k := LineLength(t, 0);
    if k == 80 then [t[..k]] + Wrap(t[k..])
    else if k == |t| then [t]
    else [t[..k]] + Wrap(t[k + 1..])
  }

  /** One more character at the end of a wrapped text. */
  function Append(lines: seq<Line>, c: char): (r: seq<Line>)
    requires |lines| >= 1
    ensures |r| >= 1
  {
    var last := lines[|lines| - 1];
    if c == '\n' then lines + [[]]
    else if |last| + 1 == 80 then lines[..|lines| - 1] + [last + [c], []]
    else lines[..|lines| - 1] + [last + [c]]
  }

  lemma AppendBehind(first: Line, lines: seq<Line>, c: char)
    requires |lines| >= 1
    ensures Append([first] + lines, c) == [first] + Append(lines, c)
  {
    assert ([first] + lines)[..|lines|] == [first] + lines[..|lines| - 1];
  }

  lemma {:induction false} LineLengthUnique(t: seq<char>, k: nat, n: nat)
    requires k <= n <= |t| && n <= 80
    requires forall i :: k <= i < n ==> t[i] != '\n'
    requires n == 80 || n == |t| || t[n] == '\n'
    ensures LineLength(t, k) == n
    decreases n - k
  {
    if k < n {
      LineLengthUnique(t, k + 1, n);
    }
  }

  /** Wrapping is incremental: the console's per-character bookkeeping computes `Wrap`. */
  lemma {:induction false} WrapSnoc(t: seq<char>, c: char)
    ensures Wrap(t + [c]) == Append(Wrap(t), c)
    decreases |t|
  {
    var k := LineLength(t, 0);
    var u := t + [c];
    if k == 80 {
      LineLengthUnique(u, 0, k);
      assert u[..k] == t[..k] && u[k..] == t[k..] + [c];
      WrapSnoc(t[k..], c);
      AppendBehind(t[..k], Wrap(t[k..]), c);
    } else if k < |t| {
      LineLengthUnique(u, 0, k);
      assert u[..k] == t[..k] && u[k + 1..] == t[k + 1..] + [c];
      WrapSnoc(t[k + 1..], c);
      AppendBehind(t[..k], Wrap(t[k + 1..]), c);
    } else {
      assert Wrap([]) == [[]];
      if c == '\n' {
        LineLengthUnique(u, 0, k);
        assert u[..k] == t && u[k + 1..] == [];
      } else {
        LineLengthUnique(u, 0, k + 1);
        assert u[..k + 1] == u && u[k + 1..] == [];
      }
    }
  }

  // ---------------------------------------------------------------- the screen shows the text

  predicate Blank(b: Byte) { b == 0 || b == 32 }

  /** Row `r` shows `line` in white from column 0, and nothing after it. */
  ghost predicate RowShows(bytes: seq<Byte>, r: nat, line: Line)
    requires |bytes| == 4000 && r < 25
  {
    && |line| <= 80
    && (forall c {:trigger line[c]} :: 0 <= c < |line| ==>
          bytes[Cell(r, c)] == line[c] as int && bytes[Cell(r, c) + 1] == 0x07)
    && (forall c {:trigger Cell(r, c)} :: |line| <= c < 80 ==> Blank(bytes[Cell(r, c)]))
  }

  /** The line on row `r` when the last line is on row `row`. */
  function LineOn(lines: seq<Line>, row: nat, r: nat): Line
    requires r <= row < |lines|
  {
    lines[|lines| - 1 - row + r]
  }

  /** Rows 0 to `row` show the last row + 1 lines and every row below is blank. */
  ghost predicate RowsShow(bytes: seq<Byte>, lines: seq<Line>, row: nat) {
    && |bytes| == 4000 && row < 25 && row < |lines|
    && (forall r :: 0 <= r <= row ==> RowShows(bytes, r, LineOn(lines, row, r)))
    && (forall r :: row < r < 25 ==> RowShows(bytes, r, []))
  }

  /** The cursor is on screen at the end of the last line, rows 0 to `row` show the last row + 1
      lines, and every row below is blank. */
  ghost predicate Shows(s: Screen, lines: seq<Line>) {
    RowsShow(s.bytes, lines, s.row) && s.column < 80 && |lines[|lines| - 1]| == s.column
  }

  /** The half-screen scroll: the overlapping copy is a true move, so row r becomes row r + 12. */
  lemma ScrollRows(bytes: seq<Byte>)
    requires |bytes| == SCREEN_BYTES
    ensures forall i :: 0 <= i < 2080 ==> ScrollBytes(bytes)[i] == bytes[i + 1920]
    ensures forall i :: 2080 <= i < 4000 ==> ScrollBytes(bytes)[i] == 0
  {
    ForwardCopyDown(bytes, 0, 1920, 2080);
  }

  lemma ScrolledRow(bytes: seq<Byte>, r: nat, line: Line)
    requires |bytes| == SCREEN_BYTES && r < 13 && RowShows(bytes, r + 12, line)
    ensures RowShows(ScrollBytes(bytes), r, line)
  {
    ScrollRows(bytes);
    forall c | 0 <= c < COLUMNS
      ensures ScrollBytes(bytes)[Cell(r, c)] == bytes[Cell(r + 12, c)]
      ensures ScrollBytes(bytes)[Cell(r, c) + 1] == bytes[Cell(r + 12, c) + 1]
    {
      assert Cell(r, c) + 1920 == Cell(r + 12, c);
    }
  }

  lemma ClearedRow(bytes: seq<Byte>, r: nat)
    requires |bytes| == SCREEN_BYTES && 13 <= r < ROWS
    ensures RowShows(ScrollBytes(bytes), r, [])
  {
    ScrollRows(bytes);
  }

  /** Scrolling a full screen whose 25 rows show the lines before a fresh one. */
  lemma ScrollShows(s: Screen, lines: seq<Line>)
    requires |s.bytes| == SCREEN_BYTES && |lines| >= ROWS
    requires forall r :: 0 <= r < ROWS ==> RowShows(s.bytes, r, LineOn(lines, LAST_ROW, r))
    ensures ScrollUp(s).row == 13 && Shows(ScrollUp(s), lines + [[]])
  {
    var t, all := ScrollUp(s), lines + [[]];
    forall r | 0 <= r <= t.row ensures RowShows(t.bytes, r, LineOn(all, t.row, r)) {
      if r < 13 {
        ScrolledRow(s.bytes, r, LineOn(lines, LAST_ROW, r + 12));
      } else {
        ClearedRow(s.bytes, r);
      }
    }
    forall r | t.row < r < ROWS ensures RowShows(t.bytes, r, []) {
      ClearedRow(s.bytes, r);
    }
  }

  lemma OutputRow(bytes: seq<Byte>, c: char, row: nat, column: nat, line: Line)
    requires |bytes| == SCREEN_BYTES && row < ROWS && column < COLUMNS && 32 <= c as int <= 126
    requires RowShows(bytes, row, line) && |line| == column
    ensures RowShows(OutputChar(bytes, c as int, WHITE, row, column), row, line + [c])
  {
    var written := OutputChar(bytes, c as int, WHITE, row, column);
    forall k | 0 <= k < COLUMNS && k != column
      ensures written[Cell(row, k)] == bytes[Cell(row, k)] && written[Cell(row, k) + 1] == bytes[Cell(row, k) + 1]
    {
    }
    assert written[Cell(row, column)] == c as int && written[Cell(row, column) + 1] == WHITE;
    forall k | 0 <= k < column
      ensures written[Cell(row, k)] == line[k] as int && written[Cell(row, k) + 1] == WHITE
    {
    }
    forall k | column < k < COLUMNS ensures Blank(written[Cell(row, k)]) {
      assert Blank(bytes[Cell(row, k)]);
    }
  }

  lemma OutputOtherRow(bytes: seq<Byte>, c: Byte, row: nat, column: nat, r: nat, line: Line)
    requires |bytes| == SCREEN_BYTES && row < ROWS && column < COLUMNS && r < ROWS && r != row
    requires RowShows(bytes, r, line)
    ensures RowShows(OutputChar(bytes, c, WHITE, row, column), r, line)
  {
    var written := OutputChar(bytes, c, WHITE, row, column);
    forall k | 0 <= k < COLUMNS
      ensures written[Cell(r, k)] == bytes[Cell(r, k)] && written[Cell(r, k) + 1] == bytes[Cell(r, k) + 1]
    {
    }
    forall k | 0 <= k < |line| ensures written[Cell(r, k)] == line[k] as int && written[Cell(r, k) + 1] == WHITE {
      assert bytes[Cell(r, k)] == line[k] as int;
    }
    forall k | |line| <= k < COLUMNS ensures Blank(written[Cell(r, k)]) {
      assert Blank(bytes[Cell(r, k)]);
    }
  }

  /** Moving to a fresh line: scroll from the last row, otherwise just step down. */
  lemma FreshLine(s: Screen, lines: seq<Line>, row: nat)
    requires RowsShow(s.bytes, lines, row)
    ensures row == LAST_ROW ==> Shows(ScrollUp(s), lines + [[]])
    ensures row < LAST_ROW ==> Shows(s.(row := row + 1, column := 0), lines + [[]])
  {
    if row == LAST_ROW {
      ScrollShows(s, lines);
    } else {
      var all, next := lines + [[]], row + 1;
      forall r | 0 <= r <= next ensures RowShows(s.bytes, r, LineOn(all, next, r)) {
        if r <= row {
          assert LineOn(all, next, r) == LineOn(lines, row, r);
        }
      }
    }
  }

  /** Writing one character extends the last line and disturbs no other row. */
  lemma CharRows(bytes: seq<Byte>, lines: seq<Line>, row: nat, column: nat, c: char)
    requires RowsShow(bytes, lines, row) && column < COLUMNS && |lines[|lines| - 1]| == column
    requires 32 <= c as int <= 126
    ensures var last := lines[|lines| - 1];
            RowsShow(OutputChar(bytes, c as int, WHITE, row, column), lines[..|lines| - 1] + [last + [c]], row)
  {
    var n := |lines|;
    var last := lines[n - 1];
    var written := OutputChar(bytes, c as int, WHITE, row, column);
    var full := lines[..n - 1] + [last + [c]];
    assert last == LineOn(lines, row, row);
    OutputRow(bytes, c, row, column, last);
    forall r | 0 <= r <= row ensures RowShows(written, r, LineOn(full, row, r)) {
      if r < row {
        OutputOtherRow(bytes, c as int, row, column, r, LineOn(lines, row, r));
      }
    }
    forall r | row < r < ROWS ensures RowShows(written, r, []) {
      OutputOtherRow(bytes, c as int, row, column, r, []);
    }
  }

  lemma NewlineShows(s: Screen, lines: seq<Line>)
    requires Shows(s, lines)
    ensures Shows(PrintChar(s, '\n'), Append(lines, '\n'))
  {
    FreshLine(s, lines, s.row);
  }

  /** The cursor after a character was written at the end of the last line. */
  function Advance(s: Screen): Screen
    requires |s.bytes| == SCREEN_BYTES
  {
    if s.column + 1 < COLUMNS then s.(column := s.column + 1)
    else if s.row == LAST_ROW then ScrollUp(s)
    else s.(column := 0, row := s.row + 1)
  }

  lemma AdvanceShows(s: Screen, lines: seq<Line>, c: char)
    requires |lines| >= 1 && |lines[|lines| - 1]| == s.column < COLUMNS && c != '\n'
    requires RowsShow(s.bytes, lines[..|lines| - 1] + [lines[|lines| - 1] + [c]], s.row)
    ensures Shows(Advance(s), Append(lines, c))
  {
    var full := lines[..|lines| - 1] + [lines[|lines| - 1] + [c]];
    if s.column + 1 == COLUMNS {
      assert Append(lines, c) == full + [[]];
      FreshLine(s, full, s.row);
    }
  }

  lemma CharShows(s: Screen, lines: seq<Line>, c: char)
    requires Shows(s, lines) && 32 <= c as int <= 126
    ensures Shows(PrintChar(s, c), Append(lines, c))
  {
    var t := s.(bytes := OutputChar(s.bytes, c as int, WHITE, s.row, s.column));
    CharRows(s.bytes, lines, s.row, s.column, c);
    AdvanceShows(t, lines, c);
    assert PrintChar(s, c) == Advance(t);
  }

  // ---------------------------------------------------------------- whole outputs

  function Print(s: Screen, text: seq<char>): Screen
    requires |s.bytes| == SCREEN_BYTES && s.row < ROWS && s.column < COLUMNS
    decreases |text|
  {
    if text == [] || s.halted then s
    else
      var t := PrintChar(s, text[0]);
      Print(t, text[1..])
  }

  /** For every output of printable characters and newlines after the initial clear: the cursor stays
      on screen, and the screen shows exactly the end of the whole wrapped output. */
  lemma {:induction false} PrintShows(s: Screen, before: seq<char>, text: seq<char>)
    requires Shows(s, Wrap(before)) && !s.halted
    requires forall c :: c in text ==> IsPrintable(c)
    ensures Shows(Print(s, text), Wrap(before + text)) && !Print(s, text).halted
    decreases |text|
  {
    if text == [] {
      assert before + text == before;
    } else {
      var c := text[0];
      assert IsPrintable(c);
      WrapSnoc(before, c);
      if c == '\n' {
        NewlineShows(s, Wrap(before));
      } else {
        CharShows(s, Wrap(before), c);
      }
      assert before + text == (before + [c]) + text[1..];
      PrintShows(PrintChar(s, c), before + [c], text[1..]);
    }
  }

  /** The screen after the clearing loop of printf. */
  ghost predicate Cleared(s: Screen) {
    && |s.bytes| == SCREEN_BYTES && s.row == 0 && s.column == 0 && !s.halted
    && forall i :: 0 <= i < 2000 ==> s.bytes[2 * i] == 32
  }

  /** Any other character halts. */
  lemma PrintHaltsIff(s: Screen, c: char)
    requires |s.bytes| == SCREEN_BYTES && s.row < ROWS && s.column < COLUMNS && !s.halted
    ensures PrintChar(s, c).halted <==> c != '\n' && !(32 <= c as int <= 126)
  {
  }

  /** Cell by cell, two bytes each: what stands on the screen after any printable output. */
  lemma ScreenCells(s: Screen, text: seq<char>, r: nat, c: nat)
    requires Cleared(s) && (forall ch :: ch in text ==> ch == '\n' || 32 <= ch as int <= 126) && r < 25 && c < 80
    ensures var t, lines := Print(s, text), Wrap(text);
            && !t.halted && |t.bytes| == 4000 && t.row < 25 && t.row < |lines|
            && t.column == |lines[|lines| - 1]| < 80
            && var line := if r <= t.row then lines[|lines| - 1 - t.row + r] else [];
               if c < |line| then t.bytes[160 * r + 2 * c] == line[c] as int && t.bytes[160 * r + 2 * c + 1] == 0x07
               else t.bytes[160 * r + 2 * c] == 0 || t.bytes[160 * r + 2 * c] == 32
  {
    var t, lines := Print(s, text), Wrap(text);
    PrintedShows(s, text);
    RowCell(t.bytes, r, if r <= t.row then LineOn(lines, t.row, r) else [], c);
  }

  lemma PrintedShows(s: Screen, text: seq<char>)
    requires Cleared(s) && forall ch :: ch in text ==> ch == '\n' || 32 <= ch as int <= 126
    ensures Shows(Print(s, text), Wrap(text)) && !Print(s, text).halted
  {
    ClearedShows(s);
    assert [] + text == text;
    PrintShows(s, [], text);
  }

  lemma RowCell(bytes: seq<Byte>, r: nat, line: Line, c: nat)
    requires |bytes| == 4000 && r < 25 && c < 80 && RowShows(bytes, r, line)
    ensures if c < |line| then bytes[160 * r + 2 * c] == line[c] as int && bytes[160 * r + 2 * c + 1] == 0x07
            else bytes[160 * r + 2 * c] == 0 || bytes[160 * r + 2 * c] == 32
  {
    assert Cell(r, c) == 160 * r + 2 * c;
    if c < |line| {
      assert bytes[Cell(r, c)] == line[c] as int && bytes[Cell(r, c) + 1] == 0x07;
    } else {
      assert Blank(bytes[Cell(r, c)]);
    }
  }

  lemma ClearedShows(s: Screen)
    requires Cleared(s)
    ensures Shows(s, Wrap([]))
  {
    assert Wrap([]) == [[]];
  }

  // ---------------------------------------------------------------- the console as it runs

  class Vga {
    const memory: array<Byte>
    var row: nat
    var column: nat
    var halted: bool

    ghost predicate Valid()
      reads this
    {
      memory.Length == SCREEN_BYTES && row < ROWS && column < COLUMNS
    }

    ghost function View(): Screen
      reads this, memory
    {
      Screen(memory[..], row, column, halted)
    }

    /** The globals at start, then the clearing loops of printf's first call. */
    constructor ()
      ensures Valid() && fresh(memory) && Cleared(View()) && Shows(View(), Wrap([]))
    {
      memory := new Byte[SCREEN_BYTES](_ => 0);
      row, column, halted := 0, 0, false;
      new;
      for r := 0 to ROWS
        invariant Valid() && row == 0 && column == 0 && !halted
        invariant forall i :: 0 <= i < 80 * r ==> memory[2 * i] == 32
      {
        for c := 0 to COLUMNS
          invariant Valid() && row == 0 && column == 0 && !halted
          invariant forall i :: 0 <= i < 80 * r + c ==> memory[2 * i] == 32
        {
          PutCell(32, 0, r, c);
        }
      }
      ClearedShows(View());
    }

    /** output_char */
    method PutCell(c: Byte, property: Byte, r: nat, col: nat)
      requires Valid() && r < ROWS && col < COLUMNS
      modifies memory
      ensures memory[..] == OutputChar(old(memory[..]), c, property, r, col)
    {
      memory[Cell(r, col)] := c;
      memory[Cell(r, col) + 1] := property;
    }

    /** scroll_up */
    method Scroll()
      requires memory.Length == SCREEN_BYTES
      modifies this, memory
      ensures Valid() && View() == ScrollUp(old(View()))
    {
      var count := (ROWS - SCROLL_ROWS) * COLUMNS;
      var src := 2 * SCROLL_ROWS * COLUMNS;
      Memcpy(memory, 0, src, count * 2);
      Zeromem(memory, src + 2 * COLUMNS, (count - COLUMNS) * 2);
      row, column := ROWS - SCROLL_ROWS, 0;
    }

    /** print_c */
    method PrintC(c: char)
      requires Valid()
      modifies this, memory
      ensures Valid() && View() == PrintChar(old(View()), c)
    {
      if !IsPrintable(c) {
        halted := true;
        return;
      }
      if c == '\n' {
        row, column := (row + 1) % ROWS, 0;
        if row == 0 {
          Scroll();
        }
        return;
      }
      PutCell(c as int, WHITE, row, column);
      column := column + 1;
      if column == COLUMNS {
        column, row := 0, row + 1;
      }
      if row == ROWS {
        Scroll();
      }
    }
  }
}
