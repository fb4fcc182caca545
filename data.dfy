/**
 * The cursor-addressed ragged grid of src/data.rs.
 *
 * `Screen` is the value of a `DataComponent`: its lines of cells and its
 * active position. Each `&mut self` method of the source has a specification
 * function on `Screen` stating what the method leaves behind; the class
 * `DataComponent` holds the two fields the source mutates, and each of its
 * methods is proved to move its state exactly as that function says.
 *
 * A panic of the source (an `assert!`, an out-of-range index, a `splice`
 * past the end of a line) is a precondition here.
 */
module Data {
  import opened Wrappers
  import opened Parser

  /** The active position, 0-indexed (data.rs:25-30). */
  datatype Position = Position(row: nat, col: nat)

  /** A cell holds a grapheme, or nothing (data.rs:21-23). */
  type Cell = Option<string>

  /** A line is a vector of cells (data.rs:17-19). */
  type Line = seq<Cell>

  /**
   * Grapheme segmentation (`graphemes(true)` of the unicode-segmentation
   * crate) is not part of this model: it is a parameter.
   */
  type Segmenter = string -> seq<string>

  /** The only facts assumed about segmentation: non-empty segments whose concatenation is the input. */
  ghost predicate IsSegmentation(seg: Segmenter) {
    forall s :: Concat(seg(s)) == s && (forall j :: 0 <= j < |seg(s)| ==> seg(s)[j] != [])
  }

  /** The width of `usize`: the source targets 64-bit platforms. */
  const UsizeLimit: nat := 0x1_0000_0000_0000_0000

  function Min(a: nat, b: nat): nat { if a <= b then a else b }
  function Max(a: nat, b: nat): nat { if a <= b then b else a }

  /** A line of `n` empty cells. */
  function Blank(n: nat): (line: Line)
    ensures |line| == n && forall k :: 0 <= k < n ==> line[k] == None
  {
    seq(n, _ => None)
  }

  /** The text a run of cells shows; an empty cell shows nothing. */
  function Texts(cells: seq<Cell>): (texts: seq<string>)
    ensures |texts| == |cells|
    ensures forall j :: 0 <= j < |cells| ==> texts[j] == cells[j].GetOr([])
  {
    seq(|cells|, j requires 0 <= j < |cells| => cells[j].GetOr([]))
  }

  /** The arguments of EL (erase in line) that `erase_in_line` acts on. */
  predicate Erases(n: Option<string>) {
    n == None || n == Some("0") || n == Some("1") || n == Some("2")
  }

  // ---------------------------------------------------------------------
  // `str::parse::<usize>` (data.rs:129)
  // ---------------------------------------------------------------------

  predicate IsDigit(c: char) { '0' <= c <= '9' }

  predicate AllDigits(s: string) {
    forall j :: 0 <= j < |s| ==> IsDigit(s[j])
  }

  /** The value of a string of decimal digits. */
  function DigitsValue(s: string): nat
    requires AllDigits(s)
  {
    if s == [] then 0
    else DigitsValue(s[..|s| - 1]) * 10 + (s[|s| - 1] as int - '0' as int)
  }

  /**
   * Unsigned decimal parsing: a non-empty run of digits, optionally after a
   * single `+`, whose value fits in 64 bits. A lone sign, a `-`, any other
   * character and an overflow are errors.
   */
  function ParseUsize(s: string): (r: Option<nat>)
    ensures r.Some? ==> r.value < UsizeLimit
    ensures r.Some? ==> s != [] && s != "+"
  {
    var digits := if s != [] && s[0] == '+' then s[1..] else s;
    if s == [] || s == "+" || s == "-" || !AllDigits(digits) then None
    else if DigitsValue(digits) < UsizeLimit then Some(DigitsValue(digits))
    else None
  }

  /** Only an optional `+` followed by digits parses, and its value is the value of those digits. */
  lemma ParseUsizeParsed(s: string, k: nat)
    requires ParseUsize(s) == Some(k)
    ensures s[0] == '+' ==> |s| >= 2 && AllDigits(s[1..]) && DigitsValue(s[1..]) == k
    ensures s[0] != '+' ==> AllDigits(s) && DigitsValue(s) == k
  {
  }

  /** A character other than a digit, except one leading `+`, makes the parse fail. */
  lemma ParseUsizeRejects(s: string, i: nat)
    requires i < |s| && !IsDigit(s[i]) && !(i == 0 && s[0] == '+')
    ensures ParseUsize(s) == None
  {
    if s[0] == '+' && s != "+" && s != "-" {
      assert s[1..][i - 1] == s[i];
    }
  }

  /** Every run of digits that fits, leading zeros included, parses to its value, with or without a `+`. */
  lemma DigitsParse(d: string)
    requires d != [] && AllDigits(d) && DigitsValue(d) < UsizeLimit
    ensures ParseUsize(d) == Some(DigitsValue(d))
    ensures ParseUsize("+" + d) == Some(DigitsValue(d))
  {
    assert ("+" + d)[1..] == d;
  }

  /** The decimal spelling of `k`, without sign or leading zeros. */
  function Decimal(k: nat): (s: string)
    ensures s != [] && AllDigits(s)
  {
    if k < 10 then [('0' as int + k) as char]
    else Decimal(k / 10) + [('0' as int + k % 10) as char]
  }

  lemma {:induction false} DecimalValue(k: nat)
    ensures DigitsValue(Decimal(k)) == k
  {
    var s := Decimal(k);
    if k >= 10 {
      assert s[..|s| - 1] == Decimal(k / 10);
      DecimalValue(k / 10);
    }
  }

  /** Every `usize`, written in decimal with or without a `+`, parses back to itself. */
  lemma ParseUsizeRoundTrip(k: nat)
    requires k < UsizeLimit
    ensures ParseUsize(Decimal(k)) == Some(k)
    ensures ParseUsize("+" + Decimal(k)) == Some(k)
  {
    DecimalValue(k);
    var s := Decimal(k);
    assert s[0] != '+' && s[0] != '-';
    assert ("+" + s)[1..] == s;
  }

  // ---------------------------------------------------------------------
  // Text helpers of `render` (data.rs:139-162)
  // ---------------------------------------------------------------------

  /** The Unicode White_Space property, which `str::trim_end` strips. */
  predicate IsWhiteSpace(c: char) {
    || '\U{09}' <= c <= '\U{0D}' || c == ' ' || c == '\U{85}' || c == '\U{A0}' || c == '\U{1680}'
    || '\U{2000}' <= c <= '\U{200A}' || c == '\U{2028}' || c == '\U{2029}' || c == '\U{202F}'
    || c == '\U{205F}' || c == '\U{3000}'
  }

  /** `str::trim_end`: the longest prefix that does not end in white space. */
  function TrimEnd(s: string): (r: string)
    ensures r <= s
    ensures r == [] || !IsWhiteSpace(r[|r| - 1])
    ensures forall i :: |r| <= i < |s| ==> IsWhiteSpace(s[i])
  {
    if s != [] && IsWhiteSpace(s[|s| - 1]) then TrimEnd(s[..|s| - 1]) else s
  }

  /** `String::pop`: drop the last character, if any. */
  function Pop(s: string): (r: string)
    ensures s != [] ==> r + [s[|s| - 1]] == s
    ensures s == [] ==> r == []
  {
    if s == [] then [] else s[..|s| - 1]
  }

  /** The cursor marker `render` appends after the active cell. */
  const Marker: char := '\U{5F}'

  /** What `render` shows for a cell: its grapheme, or a space. */
  function CellText(c: Cell): string {
    c.GetOr(" ")
  }

  /**
   * The text of the first `|cells|` cells of the line at `rowIndex`, with the
   * marker after the cell whose (row, column) is `marked`.
   */
  function LineText(cells: seq<Cell>, rowIndex: nat, marked: Option<Position>): string {
    if cells == [] then []
    else
      var j := |cells| - 1;
      LineText(cells[..j], rowIndex, marked) + CellText(cells[j])
        + (if marked == Some(Position(rowIndex, j)) then [Marker] else [])
  }

  /**
   * The accumulated result after the rows `rows`: each row's text is
   * appended, then the whole result is trimmed and a newline added.
   */
  function Rows(rows: seq<Line>, marked: Option<Position>): (r: string)
    ensures rows != [] ==> |r| > 0 && r[|r| - 1] == '\n' && (|r| == 1 || !IsWhiteSpace(r[|r| - 2]))
  {
    if rows == [] then []
    else
      var k := |rows| - 1;
      TrimEnd(Rows(rows[..k], marked) + LineText(rows[k], k, marked)) + "\n"
  }

  /** A character that is not white space survives trimming. */
  lemma TrimEndKeeps(s: string, c: char)
    requires c in s && !IsWhiteSpace(c)
    ensures c in TrimEnd(s)
  {
    var i :| 0 <= i < |s| && s[i] == c;
    var r := TrimEnd(s);
    assert i < |r| && r[i] == c;
  }

  /** The marked cell of a line shows the marker. */
  lemma {:induction false} MarkerInLine(cells: seq<Cell>, rowIndex: nat, col: nat)
    requires col < |cells|
    ensures Marker in LineText(cells, rowIndex, Some(Position(rowIndex, col)))
  {
    var j := |cells| - 1;
    var marked := Some(Position(rowIndex, col));
    if col < j {
      assert cells[..j][..col + 1] == cells[..col + 1];
      MarkerInLine(cells[..j], rowIndex, col);
    } else {
      var t := LineText(cells[..j], rowIndex, marked) + CellText(cells[j]) + [Marker];
      assert t[|t| - 1] == Marker;
    }
  }

  /** Once a row has shown the marker, every later accumulated result still does. */
  lemma {:induction false} MarkerStays(rows: seq<Line>, row: nat, col: nat, k: nat)
    requires row < k <= |rows| && col < |rows[row]|
    ensures Marker in Rows(rows[..k], Some(Position(row, col)))
  {
    var marked := Some(Position(row, col));
    var prefix := rows[..k];
    assert prefix[..k - 1] == rows[..k - 1];
    if k - 1 == row {
      MarkerInLine(rows[row], row, col);
      var t := Rows(rows[..k - 1], marked) + LineText(rows[row], row, marked);
      assert Marker in t;
      TrimEndKeeps(t, Marker);
    } else {
      MarkerStays(rows, row, col, k - 1);
      var t := Rows(rows[..k - 1], marked) + LineText(prefix[k - 1], k - 1, marked);
      assert Marker in t;
      TrimEndKeeps(t, Marker);
    }
    var r := Rows(prefix, marked);
    assert r == TrimEnd(Rows(prefix[..k - 1], marked) + LineText(prefix[k - 1], k - 1, marked)) + "\n";
  }

  /** The accumulated result when each row's text is trimmed on its own. */
  function KeptRows(rows: seq<Line>, marked: Option<Position>): (r: string)
    ensures rows != [] ==> |r| > 0 && r[|r| - 1] == '\n' && (|r| == 1 || r[|r| - 2] == '\n' || !IsWhiteSpace(r[|r| - 2]))
  {
    if rows == [] then []
    else
      var k := |rows| - 1;
      var t := TrimEnd(LineText(rows[k], k, marked));
      KeptRows(rows[..k], marked) + t + "\n"
  }

  /** With each row trimmed on its own, a row that shows the marker keeps it in every later result. */
  lemma {:induction false} MarkerKept(rows: seq<Line>, row: nat, col: nat, k: nat)
    requires row < k <= |rows| && col < |rows[row]|
    ensures Marker in KeptRows(rows[..k], Some(Position(row, col)))
  {
    var marked := Some(Position(row, col));
    var prefix := rows[..k];
    assert prefix[..k - 1] == rows[..k - 1];
    var t := TrimEnd(LineText(prefix[k - 1], k - 1, marked));
    assert KeptRows(prefix, marked) == KeptRows(rows[..k - 1], marked) + t + "\n";
    if k - 1 == row {
      MarkerInLine(rows[row], row, col);
      TrimEndKeeps(LineText(rows[row], row, marked), Marker);
    } else {
      MarkerKept(rows, row, col, k - 1);
    }
  }

  /** The number of occurrences of `c` in `s`. */
  function Count(s: string, c: char): nat {
    if s == [] then 0 else Count(s[..|s| - 1], c) + (if s[|s| - 1] == c then 1 else 0)
  }

  lemma {:induction false} CountAppend(a: string, b: string, c: char)
    ensures Count(a + b, c) == Count(a, c) + Count(b, c)
  {
    if b == [] {
      assert a + b == a;
    } else {
      assert (a + b)[..|a + b| - 1] == a + b[..|b| - 1];
      CountAppend(a, b[..|b| - 1], c);
    }
  }

  lemma {:induction false} CountAbsent(s: string, c: char)
    requires c !in s
    ensures Count(s, c) == 0
  {
    if s != [] {
      CountAbsent(s[..|s| - 1], c);
    }
  }

  /** A cell whose grapheme holds no newline. */
  predicate NoNewline(c: Cell) {
    c.Some? ==> '\n' !in c.value
  }

  lemma {:induction false} LineTextNoNewline(cells: seq<Cell>, rowIndex: nat, marked: Option<Position>)
    requires forall j :: 0 <= j < |cells| ==> NoNewline(cells[j])
    ensures '\n' !in LineText(cells, rowIndex, marked)
  {
    if cells != [] {
      var j := |cells| - 1;
      LineTextNoNewline(cells[..j], rowIndex, marked);
      assert NoNewline(cells[j]);
    }
  }

  /** Each row trimmed on its own gives exactly one newline per row. */
  lemma {:induction false} KeptRowsCount(rows: seq<Line>, marked: Option<Position>)
    requires forall r, c :: 0 <= r < |rows| && 0 <= c < |rows[r]| ==> NoNewline(rows[r][c])
    ensures Count(KeptRows(rows, marked), '\n') == |rows|
  {
    if rows != [] {
      var k := |rows| - 1;
      var line := LineText(rows[k], k, marked);
      LineTextNoNewline(rows[k], k, marked);
      var t := TrimEnd(line);
      assert '\n' !in t;
      CountAbsent(t, '\n');
      KeptRowsCount(rows[..k], marked);
      CountAppend(KeptRows(rows[..k], marked), t, '\n');
      CountAppend(KeptRows(rows[..k], marked) + t, "\n", '\n');
    }
  }

  // ---------------------------------------------------------------------
  // The grid as a value
  // ---------------------------------------------------------------------

  datatype Screen = Screen(lines: seq<Line>, pos: Position) {

    /** The active row exists: every method of `DataComponent` keeps this. */
    predicate Valid() {
      |lines| > 0 && pos.row < |lines|
    }

    /** The active cell exists, so `get_active_cell` does not panic. */
    predicate OnCell() {
      Valid() && pos.col < |lines[pos.row]|
    }

    /** The state `new` establishes: the active cell exists and no line is empty. */
    predicate Tidy() {
      OnCell() && forall r :: 0 <= r < |lines| ==> lines[r] != []
    }

    /** `get_active_line` (data.rs:46-48). */
    function ActiveLine(): Line
      requires Valid()
    {
      lines[pos.row]
    }

    /** `get_active_cell` (data.rs:54-56). */
    function ActiveCell(): Cell
      requires OnCell()
    {
      lines[pos.row][pos.col]
    }

    /** The grid with the active line replaced. */
    function WithActiveLine(line: Line): (g: Screen)
      requires Valid()
      ensures g.Valid() && g.pos == pos && g.ActiveLine() == line && SameOtherLines(this, g)
    {
      Screen(lines[pos.row := line], pos)
    }

    /** `get_active_cell_mut().grapheme = ..`: overwrite the active cell. */
    function SetActiveCell(c: Cell): (g: Screen)
      requires OnCell()
      ensures g.OnCell() && g.pos == pos && g.ActiveCell() == c && SameOtherLines(this, g)
      ensures |g.ActiveLine()| == |ActiveLine()|
      ensures forall k :: 0 <= k < |ActiveLine()| && k != pos.col ==> g.ActiveLine()[k] == ActiveLine()[k]
      ensures Tidy() ==> g.Tidy()
    {
      WithActiveLine(ActiveLine()[pos.col := c])
    }

    /** `activate_next_cell`: move right, growing the line by one blank cell at its end. */
    function ActivateNextCell(): (g: Screen)
      requires OnCell()  // the assert! at data.rs:65: the new column is at most the line's length
      ensures g.OnCell() && g.pos == Position(pos.row, pos.col + 1) && SameOtherLines(this, g)
      ensures ActiveLine() <= g.ActiveLine()
      ensures |g.ActiveLine()| == Max(|ActiveLine()|, pos.col + 2)
      ensures forall k :: |ActiveLine()| <= k < |g.ActiveLine()| ==> g.ActiveLine()[k] == None
      ensures Tidy() ==> g.Tidy()
    {
      var line := ActiveLine();
      var moved := Screen(lines, Position(pos.row, pos.col + 1));
      if pos.col + 1 == |line| then moved.WithActiveLine(line + [None]) else moved
    }

    /** `activate_prev_cell`: move left, stopping at the first column. */
    function ActivatePrevCell(): (g: Screen)
      ensures g.lines == lines && g.pos.row == pos.row
      ensures pos.col > 0 ==> g.pos.col + 1 == pos.col
      ensures pos.col == 0 ==> g.pos.col == 0
      ensures OnCell() ==> g.OnCell()
      ensures Tidy() ==> g.Tidy()
    {
      Screen(lines, Position(pos.row, if pos.col > 0 then pos.col - 1 else 0))
    }

    /** `activate_next_line`: the first cell of the next line, adding that line if it is missing. */
    function ActivateNextLine(): (g: Screen)
      requires pos.row < |lines|  // the assert! at data.rs:86
      ensures g.Valid() && g.pos == Position(pos.row + 1, 0)
      ensures lines <= g.lines
      ensures |g.lines| == Max(|lines|, pos.row + 2)
      ensures forall r :: |lines| <= r < |g.lines| ==> g.lines[r] == [None]
      ensures Tidy() ==> g.Tidy()
    {
      var next := Position(pos.row + 1, 0);
      if pos.row + 1 == |lines| then Screen(lines + [[None]], next) else Screen(lines, next)
    }

    /** `activate_prev_line`: the first cell of the previous line, stopping at the first line. */
    function ActivatePrevLine(): (g: Screen)
      ensures g.lines == lines && g.pos.col == 0
      ensures pos.row > 0 ==> g.pos.row + 1 == pos.row
      ensures pos.row == 0 ==> g.pos.row == 0
      ensures Valid() ==> g.Valid()
      ensures Tidy() ==> g.Tidy()
    {
      Screen(lines, Position(if pos.row > 0 then pos.row - 1 else 0, 0))
    }

    /** `activate_first_cell`: the first cell of the active line. */
    function ActivateFirstCell(): (g: Screen)
      ensures g.lines == lines && g.pos == Position(pos.row, 0)
      ensures Valid() ==> g.Valid()
      ensures Tidy() ==> g.Tidy()
    {
      Screen(lines, Position(pos.row, 0))
    }

    /**
     * `erase_in_line`: with no argument or "0" keep the cells up to and
     * including the cursor; with "1" blank the whole line; with "2" empty
     * it; ignore anything else.
     */
    function EraseInLine(n: Option<string>): (g: Screen)
      requires Erases(n) ==> Valid()
      ensures g.pos == pos
      ensures !Erases(n) ==> g == this
      ensures Erases(n) ==> g.Valid() && SameOtherLines(this, g)
      ensures n == None || n == Some("0") ==>
        g.ActiveLine() <= ActiveLine() && |g.ActiveLine()| == Min(pos.col + 1, |ActiveLine()|)
      ensures n == Some("1") ==>
        |g.ActiveLine()| == |ActiveLine()| && forall k :: 0 <= k < |ActiveLine()| ==> g.ActiveLine()[k] == None
      ensures n == Some("2") ==> g.ActiveLine() == [] && !g.OnCell()
      ensures n != Some("2") && Tidy() ==> g.Tidy()
    {
      match n
      case None => WithActiveLine(ActiveLine()[..Min(pos.col + 1, |ActiveLine()|)])
      case Some("0") => WithActiveLine(ActiveLine()[..Min(pos.col + 1, |ActiveLine()|)])
      case Some("1") => WithActiveLine(Blank(|ActiveLine()|))
      case Some("2") => WithActiveLine([])
      case _ => this
    }

    /** `delete_character` does not panic: a parsed count must fit after the cursor. */
    predicate DeleteFits(n: string) {
      ParseUsize(n).Some? ==> Valid() && pos.col + 1 + ParseUsize(n).value <= |ActiveLine()|
    }

    /**
     * `delete_character`: remove the `n` cells after the cursor, shifting the
     * rest of the line left; an argument that does not parse changes nothing.
     */
    function DeleteCharacter(n: string): (g: Screen)
      requires DeleteFits(n)
      ensures g.pos == pos
      ensures ParseUsize(n).None? ==> g == this
      ensures ParseUsize(n).Some? ==>
        var k := ParseUsize(n).value;
        && g.Valid() && SameOtherLines(this, g)
        && |g.ActiveLine()| + k == |ActiveLine()|
        && g.ActiveLine()[..pos.col + 1] == ActiveLine()[..pos.col + 1]
        && (forall c :: pos.col + 1 <= c < |g.ActiveLine()| ==> g.ActiveLine()[c] == ActiveLine()[c + k])
      ensures Tidy() ==> g.Tidy()
    {
      match ParseUsize(n)
      case None => this
      case Some(k) =>
        var i := pos.col + 1;
        WithActiveLine(ActiveLine()[..i] + ActiveLine()[i + k..])
    }

    /**
     * Write `segs` from the active cell on, as the loop of `write_text` does:
     * the first overwrites the active cell, each further one goes into the
     * next cell (added when the line ends); the cursor stays on the last one.
     */
    function WriteSegments(segs: seq<string>): (g: Screen)
      requires OnCell()
      ensures g.OnCell() && g.pos.row == pos.row && SameOtherLines(this, g)
      ensures segs == [] ==> g == this
      ensures segs != [] ==> g.pos.col + 1 == pos.col + |segs|
      ensures |g.ActiveLine()| == Max(|ActiveLine()|, pos.col + |segs|)
      ensures forall k :: 0 <= k < pos.col ==> g.ActiveLine()[k] == ActiveLine()[k]
      ensures forall j :: 0 <= j < |segs| ==> g.ActiveLine()[pos.col + j] == Some(segs[j])
      ensures forall k :: pos.col + |segs| <= k < |ActiveLine()| ==> g.ActiveLine()[k] == ActiveLine()[k]
      ensures Tidy() ==> g.Tidy()
      decreases |segs|
    {
      if segs == [] then this
      else if |segs| == 1 then SetActiveCell(Some(segs[0]))
      else
        var before := WriteSegments(segs[..|segs| - 1]);
        before.ActivateNextCell().SetActiveCell(Some(segs[|segs| - 1]))
    }

    /**
     * `write_text`: segment the active cell's grapheme followed by `text`,
     * and write the segments from the active cell on.
     */
    function WriteText(text: string, seg: Segmenter): (g: Screen)
      requires OnCell()
      ensures g.OnCell() && g.pos.row == pos.row && pos.col <= g.pos.col && SameOtherLines(this, g)
      ensures seg(ActiveCell().GetOr([]) + text) != [] ==>
        g.pos.col + 1 == pos.col + |seg(ActiveCell().GetOr([]) + text)|
      ensures forall k :: 0 <= k < pos.col ==> g.ActiveLine()[k] == ActiveLine()[k]
      ensures Tidy() ==> g.Tidy()
    {
      var segs := seg(ActiveCell().GetOr([]) + text);
      WrittenSegmentsShow(this, segs, WriteSegments(segs));
      WriteSegments(segs)
    }

    /** Whether `write_node` acts on a node: the patterns of data.rs:167-187. */
    predicate Acts(node: Node) {
      match node
      case Text(_) => true
      case C0Control(c) => c == '\U{08}' || c == '\U{0A}' || c == '\U{0D}'
      case C1Control(c) => c == '\U{45}' || c == '\U{4D}'
      case ControlSequence(p, i, f) =>
        || (p.None? && i.None? && f == 'C')
        || f == 'K'
        || (p.Some? && i.None? && f == 'P')
      case _ => false
    }

    /** EL with argument "2", the one node after which the active cell can be missing. */
    predicate EmptiesLine(node: Node) {
      node.ControlSequence? && node.finalByte == 'K' && node.parameterBytes == Some("2")
    }

    /** `write_node` does not panic on `node`. */
    predicate NodeFits(node: Node) {
      match node
      case Text(_) => OnCell()
      case C0Control('\U{0A}') => pos.row < |lines|
      case ControlSequence(None, None, 'C') => OnCell()
      case ControlSequence(n, _, 'K') => Erases(n) ==> Valid()
      case ControlSequence(Some(n), None, 'P') => DeleteFits(n)
      case _ => true
    }

    /**
     * `write_node`: BS, LF, CR, NEL and RI move the cursor, CUF without
     * arguments moves right, EL erases, DCH deletes, text is written; every
     * other node is ignored.
     */
    function WriteNode(node: Node, seg: Segmenter): (g: Screen)
      requires NodeFits(node)
      ensures !Acts(node) ==> g == this
      ensures Valid() ==> g.Valid()
      ensures |lines| <= |g.lines|
      ensures Tidy() && !EmptiesLine(node) ==> g.Tidy()
    {
      match node
      case Text(text) => WriteText(text, seg)
      case C0Control('\U{08}') => ActivatePrevCell()
      case C0Control('\U{0A}') => ActivateNextLine()
      case C0Control('\U{0D}') => ActivateFirstCell()
      case C1Control('\U{45}') => ActivateFirstCell()
      case C1Control('\U{4D}') => ActivatePrevLine()
      case ControlSequence(None, None, 'C') => ActivateNextCell()
      case ControlSequence(n, _, 'K') => EraseInLine(n)
      case ControlSequence(Some(n), None, 'P') => DeleteCharacter(n)
      case _ => this
    }

    /** The number of lines `render` skips to show at most `maxLines` (`saturating_sub`). */
    function Skipped(maxLines: nat): (k: nat)
      ensures k <= |lines| && |lines| - k <= maxLines
      ensures k > 0 ==> |lines| - k == maxLines
    {
      if |lines| > maxLines then |lines| - maxLines else 0
    }

    /**
     * `render`, as written: the last `maxLines` lines, each trimmed of
     * trailing white space, with the marker after the cell whose position
     * among the SHOWN lines equals the cursor's absolute position.
     */
    function Render(maxLines: nat): (r: string)
      ensures r == [] || !IsWhiteSpace(r[|r| - 1])
    {
      Pop(Rows(lines[Skipped(maxLines)..], Some(pos)))
    }

    /** Where the cursor is among the shown lines, if its line is shown. */
    function CursorInView(maxLines: nat): (v: Option<Position>)
      ensures v.Some? <==> pos.row >= Skipped(maxLines)
      ensures v.Some? ==> Skipped(maxLines) + v.value.row == pos.row && v.value.col == pos.col
    {
      var k := Skipped(maxLines);
      if pos.row >= k then Some(Position(pos.row - k, pos.col)) else None
    }

    /**
     * `render` as evidently intended: the cursor's row translated into the
     * shown lines, and each line trimmed on its own.
     */
    function RenderIntended(maxLines: nat): string {
      Pop(KeptRows(lines[Skipped(maxLines)..], CursorInView(maxLines)))
    }
  }

  /** As written, the marker does appear whenever no line is skipped. */
  lemma RenderShowsCursorWhenNothingSkipped(g: Screen, maxLines: nat)
    requires g.OnCell() && g.Skipped(maxLines) == 0
    ensures Marker in g.Render(maxLines)
  {
    var shown := g.lines[0..];
    assert shown == g.lines;
    MarkerStays(shown, g.pos.row, g.pos.col, |shown|);
    assert shown[..|shown|] == shown;
    var r := Rows(shown, Some(g.pos));
    assert r == Pop(r) + ['\n'];
  }

  /** As intended, the marker appears whenever the active cell's line is shown. */
  lemma RenderIntendedShowsCursor(g: Screen, maxLines: nat)
    requires g.OnCell() && g.pos.row >= g.Skipped(maxLines)
    ensures Marker in g.RenderIntended(maxLines)
  {
    var k := g.Skipped(maxLines);
    var shown := g.lines[k..];
    var v := g.CursorInView(maxLines).value;
    assert shown[v.row] == g.ActiveLine();
    MarkerKept(shown, v.row, v.col, |shown|);
    assert shown[..|shown|] == shown;
    var r := KeptRows(shown, Some(v));
    assert r == Pop(r) + ['\n'];
  }

  /** As intended, every shown line is one line of output, blank ones included. */
  lemma RenderIntendedKeepsLines(g: Screen, maxLines: nat)
    requires forall r, c :: 0 <= r < |g.lines| && 0 <= c < |g.lines[r]| ==> NoNewline(g.lines[r][c])
    requires g.Skipped(maxLines) < |g.lines|
    ensures Count(g.RenderIntended(maxLines), '\n') + g.Skipped(maxLines) + 1 == |g.lines|
  {
    var shown := g.lines[g.Skipped(maxLines)..];
    var marked := g.CursorInView(maxLines);
    KeptRowsCount(shown, marked);
    var r := KeptRows(shown, marked);
    CountAppend(Pop(r), ['\n'], '\n');
    assert r == Pop(r) + ['\n'];
  }

  /**
   * As written, `render` loses the marker once lines are skipped: with two
   * one-cell lines, the cursor on the second and room for one line, the
   * second line is shown without the marker.
   */
  lemma RenderLosesCursor()
    ensures var g := Screen([[Some("a")], [Some("b")]], Position(1, 0));
      && g.OnCell() && g.pos.row >= g.Skipped(1)
      && g.Render(1) == "b"
      && g.RenderIntended(1) == "b\U{5F}"
  {
    var g := Screen([[Some("a")], [Some("b")]], Position(1, 0));
    var shown := g.lines[1..];
    assert shown == [[Some("b")]];
    assert shown[..0] == [];
    assert [Some("b")][..0] == [];
    assert LineText([Some("b")], 0, Some(g.pos)) == "b";
    assert LineText([Some("b")], 0, Some(Position(0, 0))) == "b\U{5F}";
    assert TrimEnd("b") == "b";
    assert TrimEnd("b\U{5F}") == "b\U{5F}";
  }

  /** One more row of the as-written accumulation. */
  lemma RowsSnoc(rows: seq<Line>, line: Line, marked: Option<Position>)
    ensures Rows(rows + [line], marked) == TrimEnd(Rows(rows, marked) + LineText(line, |rows|, marked)) + "\n"
  {
    assert (rows + [line])[..|rows|] == rows;
  }

  /** One more row of the as-written accumulation, on a prefix of the shown lines. */
  lemma RowsStep(shown: seq<Line>, rowIndex: nat, marked: Option<Position>)
    requires rowIndex < |shown|
    ensures Rows(shown[..rowIndex + 1], marked) ==
      TrimEnd(Rows(shown[..rowIndex], marked) + LineText(shown[rowIndex][..|shown[rowIndex]|], rowIndex, marked)) + "\n"
  {
    assert shown[..rowIndex + 1] == shown[..rowIndex] + [shown[rowIndex]];
    assert shown[rowIndex][..|shown[rowIndex]|] == shown[rowIndex];
    RowsSnoc(shown[..rowIndex], shown[rowIndex], marked);
  }

  /** Two pieces appended one after the other extend the accumulated text by both. */
  lemma Appended(before: string, done: string, prev: string, mid: string, after: string, a: string, b: string)
    requires prev == before + done && mid == prev + a && after == mid + b
    ensures after == before + (done + a + b)
  {
  }

  /** One more cell of a line's text, on a prefix of the line. */
  lemma LineTextStep(line: Line, colIndex: nat, rowIndex: nat, marked: Option<Position>)
    requires colIndex < |line|
    ensures LineText(line[..colIndex + 1], rowIndex, marked) ==
      LineText(line[..colIndex], rowIndex, marked) + CellText(line[colIndex])
        + (if marked == Some(Position(rowIndex, colIndex)) then [Marker] else [])
  {
    assert line[..colIndex + 1][..colIndex] == line[..colIndex];
  }

  /** One more row of the intended accumulation. */
  lemma KeptRowsSnoc(rows: seq<Line>, line: Line, marked: Option<Position>)
    ensures KeptRows(rows + [line], marked) == KeptRows(rows, marked) + TrimEnd(LineText(line, |rows|, marked)) + "\n"
  {
    assert (rows + [line])[..|rows|] == rows;
  }

  /** The texts of the three rows "a" (with the cursor), blank, "b" of the example below. */
  lemma BlankLineExampleTexts(l0: Line, l1: Line, l2: Line, marked: Option<Position>)
    requires l0 == [Some("a")] && l1 == [None] && l2 == [Some("b")] && marked == Some(Position(0, 0))
    ensures LineText(l0, 0, marked) == "a\U{5F}"
    ensures LineText(l1, 1, marked) == " "
    ensures LineText(l2, 2, marked) == "b"
  {
    assert l0[..0] == [] && l1[..0] == [] && l2[..0] == [];
  }

  /** Three rows of the as-written accumulation. */
  lemma RowsOfThree(l0: Line, l1: Line, l2: Line, marked: Option<Position>)
    ensures Rows([l0, l1, l2], marked) ==
      TrimEnd(TrimEnd(TrimEnd(LineText(l0, 0, marked)) + "\n" + LineText(l1, 1, marked)) + "\n" + LineText(l2, 2, marked)) + "\n"
  {
    RowsSnoc([], l0, marked);
    assert [] + [l0] == [l0] && [] + LineText(l0, 0, marked) == LineText(l0, 0, marked);
    RowsSnoc([l0], l1, marked);
    assert [l0] + [l1] == [l0, l1];
    RowsSnoc([l0, l1], l2, marked);
    assert [l0, l1] + [l2] == [l0, l1, l2];
  }

  /** Three rows of the intended accumulation. */
  lemma KeptRowsOfThree(l0: Line, l1: Line, l2: Line, marked: Option<Position>)
    ensures KeptRows([l0, l1, l2], marked) ==
      TrimEnd(LineText(l0, 0, marked)) + "\n" + TrimEnd(LineText(l1, 1, marked)) + "\n" + TrimEnd(LineText(l2, 2, marked)) + "\n"
  {
    var t0, t1, t2 := TrimEnd(LineText(l0, 0, marked)), TrimEnd(LineText(l1, 1, marked)), TrimEnd(LineText(l2, 2, marked));
    KeptRowsOfOne(l0, marked);
    assert KeptRows([l0], marked) == t0 + "\n";
    KeptRowsSnoc([l0], l1, marked);
    assert [l0] + [l1] == [l0, l1] && [l0, l1] + [l2] == [l0, l1, l2];
    assert KeptRows([l0, l1], marked) == t0 + "\n" + t1 + "\n";
    KeptRowsSnoc([l0, l1], l2, marked);
  }

  /** One row of the intended accumulation. */
  lemma KeptRowsOfOne(l0: Line, marked: Option<Position>)
    ensures KeptRows([l0], marked) == TrimEnd(LineText(l0, 0, marked)) + "\n"
  {
    KeptRowsSnoc([], l0, marked);
    assert [] + [l0] == [l0];
    var t0 := TrimEnd(LineText(l0, 0, marked));
    assert [] + t0 == t0;
  }

  /** The trims of the example below, on the texts of its rows. */
  lemma BlankLineTrims()
    ensures TrimEnd(TrimEnd(TrimEnd("a\U{5F}") + "\n" + " ") + "\n" + "b") + "\n" == "a\U{5F}\nb\n"
    ensures TrimEnd("a\U{5F}") + "\n" + TrimEnd(" ") + "\n" + TrimEnd("b") + "\n" == "a\U{5F}\n\nb\n"
  {
    assert TrimEnd("a\U{5F}") == "a\U{5F}" && TrimEnd(" ") == [] && TrimEnd("b") == "b";
    assert "a\U{5F}" + "\n" + " " == "a\U{5F}\n ";
    assert TrimEnd("a\U{5F}\n ") == "a\U{5F}";
    assert "a\U{5F}" + "\n" + "b" == "a\U{5F}\nb";
    assert TrimEnd("a\U{5F}\nb") == "a\U{5F}\nb";
  }

  /**
   * As written, `render` drops a blank line: trimming the whole result also
   * strips the newline before it. Three lines "a", blank, "b" come out as
   * two.
   */
  lemma RenderDropsBlankLine()
    ensures var g := Screen([[Some("a")], [None], [Some("b")]], Position(0, 0));
      && g.Render(3) == "a\U{5F}\nb"
      && g.RenderIntended(3) == "a\U{5F}\n\nb"
  {
    var g := Screen([[Some("a")], [None], [Some("b")]], Position(0, 0));
    assert g.Skipped(3) == 0 && g.lines[0..] == g.lines;
    assert g.CursorInView(3) == Some(g.pos);
    var l0, l1, l2, marked := g.lines[0], g.lines[1], g.lines[2], Some(g.pos);
    assert g.lines == [l0, l1, l2];
    BlankLineExample(l0, l1, l2, marked);
    assert Pop("a\U{5F}\nb\n") == "a\U{5F}\nb";
    assert Pop("a\U{5F}\n\nb\n") == "a\U{5F}\n\nb";
  }

  /** The rows "a" (with the cursor), blank, "b", accumulated both ways. */
  lemma BlankLineExample(l0: Line, l1: Line, l2: Line, marked: Option<Position>)
    requires l0 == [Some("a")] && l1 == [None] && l2 == [Some("b")] && marked == Some(Position(0, 0))
    ensures Rows([l0, l1, l2], marked) == "a\U{5F}\nb\n"
    ensures KeptRows([l0, l1, l2], marked) == "a\U{5F}\n\nb\n"
  {
    BlankLineExampleTexts(l0, l1, l2, marked);
    RowsOfThree(l0, l1, l2, marked);
    KeptRowsOfThree(l0, l1, l2, marked);
    BlankLineTrims();
  }

  /** Only the active line of `g` may differ in `h`, and the number of lines is kept. */
  predicate SameOtherLines(g: Screen, h: Screen) {
    && |h.lines| == |g.lines|
    && forall r :: 0 <= r < |g.lines| && r != g.pos.row ==> h.lines[r] == g.lines[r]
  }

  /** The grid `new` builds: one line holding one blank cell, cursor at the origin. */
  function Fresh(): (g: Screen)
    ensures g.Tidy() && g.pos == Position(0, 0) && |g.lines| == 1 && g.ActiveLine() == [None]
  {
    Screen([[None]], Position(0, 0))
  }

  /**
   * `write_node` applied to each node in turn; `None` when one of them
   * would panic.
   */
  function RunNodes(g: Screen, nodes: seq<Node>, seg: Segmenter): (r: Option<Screen>)
    ensures nodes == [] ==> r == Some(g)
    ensures r.Some? && g.Valid() ==> r.value.Valid()
    decreases |nodes|
  {
    if nodes == [] then Some(g)
    else if !g.NodeFits(nodes[0]) then None
    else RunNodes(g.WriteNode(nodes[0], seg), nodes[1..], seg)
  }

  /** Running `a + b` is running `a`, then `b` from where `a` left off. */
  lemma {:induction false} RunNodesAppend(g: Screen, a: seq<Node>, b: seq<Node>, seg: Segmenter)
    ensures RunNodes(g, a + b, seg) == (match RunNodes(g, a, seg)
                                        case None => None
                                        case Some(h) => RunNodes(h, b, seg))
    decreases |a|
  {
    if a == [] {
      assert a + b == b;
    } else {
      assert (a + b)[0] == a[0] && (a + b)[1..] == a[1..] + b;
      if g.NodeFits(a[0]) {
        RunNodesAppend(g.WriteNode(a[0], seg), a[1..], b, seg);
      }
    }
  }

  /**
   * A node that can neither empty the active line nor delete past its end
   * never panics on a tidy grid, and leaves it tidy.
   */
  predicate Harmless(node: Node) {
    !(node.ControlSequence? && node.finalByte == 'K' && node.parameterBytes == Some("2"))
    && !(node.ControlSequence? && node.finalByte == 'P')
  }

  /** On a tidy grid, a sequence of harmless nodes runs without panicking and keeps the grid tidy. */
  lemma {:induction false} HarmlessNodesRun(g: Screen, nodes: seq<Node>, seg: Segmenter)
    requires g.Tidy()
    requires forall k :: 0 <= k < |nodes| ==> Harmless(nodes[k])
    ensures RunNodes(g, nodes, seg).Some? && RunNodes(g, nodes, seg).value.Tidy()
    decreases |nodes|
  {
    if nodes != [] {
      var node := nodes[0];
      assert Harmless(node);
      assert g.NodeFits(node);
      assert !g.EmptiesLine(node);
      HarmlessNodesRun(g.WriteNode(node, seg), nodes[1..], seg);
    }
  }

  // ---------------------------------------------------------------------
  // The grid as an object
  // ---------------------------------------------------------------------

  /** `DataComponent`: the lines and the active position, updated in place. */
  class DataComponent {
    var lines: seq<Line>
    var activePosition: Position

    /** The value of the grid. */
    function State(): Screen
      reads this
    {
      Screen(lines, activePosition)
    }

    /** `DataComponent::new` (data.rs:33-40). */
    constructor ()
      ensures State() == Fresh()
    {
      lines := [[None]];
      activePosition := Position(0, 0);
    }

    /** `get_active_position` (data.rs:42-44). */
    method GetActivePosition() returns (p: Position)
      ensures p == State().pos
    {
      p := activePosition;
    }

    /** `get_active_cell` (data.rs:54-56). */
    method GetActiveCell() returns (c: Cell)
      requires State().OnCell()
      ensures c == State().ActiveCell()
    {
      c := lines[activePosition.row][activePosition.col];
    }

    /** `get_active_cell_mut().grapheme = ..` */
    method SetActiveCell(c: Cell)
      requires State().OnCell()
      modifies this
      ensures State() == old(State()).SetActiveCell(c)
    {
      var row := activePosition.row;
      lines := lines[row := lines[row][activePosition.col := c]];
    }

    /** `activate_next_cell` (data.rs:63-71). */
    method ActivateNextCell()
      requires State().OnCell()
      modifies this
      ensures State() == old(State()).ActivateNextCell()
    {
      activePosition := activePosition.(col := activePosition.col + 1);
      assert activePosition.col <= |lines[activePosition.row]|;
      if activePosition.col == |lines[activePosition.row]| {
        lines := lines[activePosition.row := lines[activePosition.row] + [None]];
      }
    }

    /** `activate_prev_cell` (data.rs:74-80). */
    method ActivatePrevCell()
      modifies this
      ensures State() == old(State()).ActivatePrevCell()
    {
      activePosition := activePosition.(col := if activePosition.col > 0 then activePosition.col - 1 else 0);
    }

    /** `activate_next_line` (data.rs:83-92). */
    method ActivateNextLine()
      requires activePosition.row < |lines|
      modifies this
      ensures State() == old(State()).ActivateNextLine()
    {
      activePosition := Position(activePosition.row + 1, 0);
      assert activePosition.row <= |lines|;
      if activePosition.row == |lines| {
        lines := lines + [[None]];
      }
    }

    /** `activate_prev_line` (data.rs:95-102). */
    method ActivatePrevLine()
      modifies this
      ensures State() == old(State()).ActivatePrevLine()
    {
      activePosition := Position(if activePosition.row > 0 then activePosition.row - 1 else 0, 0);
    }

    /** `activate_first_cell` (data.rs:104-106). */
    method ActivateFirstCell()
      modifies this
      ensures State() == old(State()).ActivateFirstCell()
    {
      activePosition := activePosition.(col := 0);
    }

    /** `erase_in_line` (data.rs:108-126); mode "1" blanks the cells one by one. */
    method EraseInLine(n: Option<string>)
      requires Erases(n) ==> State().Valid()
      modifies this
      ensures State() == old(State()).EraseInLine(n)
    {
      var row := activePosition.row;
      match n {
        case None =>
          lines := lines[row := lines[row][..Min(activePosition.col + 1, |lines[row]|)]];
        case Some("0") =>
          lines := lines[row := lines[row][..Min(activePosition.col + 1, |lines[row]|)]];
        case Some("1") =>
          ghost var before := lines;
          for k := 0 to |lines[row]|
            invariant activePosition == old(activePosition)
            invariant |lines| == |before| && |lines[row]| == |before[row]|
            invariant forall r :: 0 <= r < |lines| && r != row ==> lines[r] == before[r]
            invariant forall j :: 0 <= j < k ==> lines[row][j] == None
            invariant forall j :: k <= j < |lines[row]| ==> lines[row][j] == before[row][j]
          {
            lines := lines[row := lines[row][k := None]];
          }
          assert lines[row] == Blank(|before[row]|);
          assert lines == before[row := Blank(|before[row]|)];
        case Some("2") =>
          lines := lines[row := []];
        case _ =>
      }
    }

    /** `delete_character` (data.rs:128-136): the `splice` of the cells after the cursor. */
    method DeleteCharacter(n: string)
      requires State().DeleteFits(n)
      modifies this
      ensures State() == old(State()).DeleteCharacter(n)
    {
      match ParseUsize(n) {
        case Some(k) =>
          var i := activePosition.col + 1;
          var row := activePosition.row;
          lines := lines[row := lines[row][..i] + lines[row][i + k..]];
        case None =>
      }
    }

    /** `write_text` (data.rs:192-208): the first segment in place, each further one in the next cell. */
    method WriteText(text: string, seg: Segmenter)
      requires State().OnCell()
      modifies this
      ensures State() == old(State()).WriteText(text, seg)
    {
      ghost var start := State();
      var current := GetActiveCell();
      var graphemes := seg(current.GetOr([]) + text);
      if graphemes == [] {
        return;
      }
      SetActiveCell(Some(graphemes[0]));
      WriteSegmentsSnoc(start, graphemes, 0);
      for k := 1 to |graphemes|
        invariant State() == start.WriteSegments(graphemes[..k])
      {
        WriteSegmentsSnoc(start, graphemes, k);
        ActivateNextCell();
        SetActiveCell(Some(graphemes[k]));
      }
      assert graphemes[..|graphemes|] == graphemes;
    }

    /** `write_node` (data.rs:164-190). */
    method WriteNode(node: Node, seg: Segmenter)
      requires State().NodeFits(node)
      modifies this
      ensures State() == old(State()).WriteNode(node, seg)
    {
      match node {
        case Text(text) => WriteText(text, seg);
        case C0Control('\U{08}') => ActivatePrevCell();
        case C0Control('\U{0A}') => ActivateNextLine();
        case C0Control('\U{0D}') => ActivateFirstCell();
        case C1Control('\U{45}') => ActivateFirstCell();
        case C1Control('\U{4D}') => ActivatePrevLine();
        case ControlSequence(None, None, 'C') => ActivateNextCell();
        case ControlSequence(n, _, 'K') => EraseInLine(n);
        case ControlSequence(Some(n), None, 'P') => DeleteCharacter(n);
        case _ =>
      }
    }

    /** `render` (data.rs:139-162): row by row, cell by cell, trimming after each row. */
    method Render(maxLines: nat) returns (result: string)
      ensures result == State().Render(maxLines)
    {
      result := [];
      var shown := lines[State().Skipped(maxLines)..];
      ghost var m := Some(activePosition);
      for rowIndex := 0 to |shown|
        invariant result == Rows(shown[..rowIndex], m)
      {
        var line := shown[rowIndex];
        ghost var before := result;
        for colIndex := 0 to |line|
          invariant result == before + LineText(line[..colIndex], rowIndex, m)
        {
          ghost var prev := result;
          match line[colIndex] {
            case Some(grapheme) => result := result + grapheme;
            case None => result := result + " ";
          }
          ghost var withCell := result;
          if rowIndex == activePosition.row && colIndex == activePosition.col {
            result := result + [Marker];
          }
          LineTextStep(line, colIndex, rowIndex, m);
          Appended(before, LineText(line[..colIndex], rowIndex, m), prev, withCell, result,
            CellText(line[colIndex]), if m == Some(Position(rowIndex, colIndex)) then [Marker] else []);
        }
        RowsStep(shown, rowIndex, m);
        result := TrimEnd(result) + "\n";
      }
      assert shown[..|shown|] == shown;
      result := Pop(result);
    }
  }

  /** Under a segmentation, the cells `write_text` fills, read from the old cursor, spell the active cell's old grapheme followed by the text. */
  lemma WriteTextSpells(g: Screen, text: string, seg: Segmenter)
    requires g.OnCell() && IsSegmentation(seg)
    ensures var h := g.WriteText(text, seg);
      Concat(Texts(h.ActiveLine()[g.pos.col..h.pos.col + 1])) == g.ActiveCell().GetOr([]) + text
  {
    var cell := g.ActiveCell().GetOr([]);
    var segs := seg(cell + text);
    var h := g.WriteText(text, seg);
    assert Concat(segs) == cell + text;
    WrittenSegmentsShow(g, segs, h);
    SegmentsRejoin(segs, Texts(h.ActiveLine()[g.pos.col..h.pos.col + 1]), cell + text, cell, text);
  }

  /** Segments that spell `cell + text`, or the unchanged cell when there are none, spell `cell + text` again. */
  lemma SegmentsRejoin(segs: seq<string>, texts: seq<string>, combined: string, cell: string, text: string)
    requires combined == cell + text && Concat(segs) == combined
    requires texts == if segs == [] then [cell] else segs
    ensures Concat(texts) == combined
  {
    if segs == [] {
      assert combined == [] && cell == [];
    }
  }

  /** `get_active_line` is the cursor's row, and on it `get_active_cell` is the cursor's column. */
  lemma ActiveLineHoldsActiveCell(g: Screen)
    requires g.Valid()
    ensures g.ActiveLine() in g.lines
    ensures g.pos.col < |g.ActiveLine()| <==> g.OnCell()
    ensures g.OnCell() ==> g.ActiveLine()[g.pos.col] == g.ActiveCell()
  {
  }

  /** The cells written by `WriteSegments` show the segments; with none, the active cell is left as it was. */
  lemma WrittenSegmentsShow(g: Screen, segs: seq<string>, h: Screen)
    requires g.OnCell() && h == g.WriteSegments(segs)
    ensures g.pos.col <= h.pos.col
    ensures Texts(h.ActiveLine()[g.pos.col..h.pos.col + 1]) == if segs == [] then [g.ActiveCell().GetOr([])] else segs
  {
    var cells := h.ActiveLine()[g.pos.col..h.pos.col + 1];
    var texts := Texts(cells);
    if segs == [] {
      assert |cells| == 1 && cells[0] == g.ActiveCell();
      assert texts == [g.ActiveCell().GetOr([])];
    } else {
      var line := h.ActiveLine();
      assert forall j :: 0 <= j < |segs| ==> line[g.pos.col + j] == Some(segs[j]);
      assert |texts| == |segs|;
      forall j | 0 <= j < |segs|
        ensures texts[j] == segs[j]
      {
        assert cells[j] == line[g.pos.col + j];
      }
      assert texts == segs;
    }
  }

  /** `WriteSegments` on a prefix one segment longer: one more turn of the loop of `write_text`. */
  lemma WriteSegmentsSnoc(g: Screen, segs: seq<string>, k: nat)
    requires g.OnCell() && k < |segs|
    ensures k == 0 ==> g.WriteSegments(segs[..1]) == g.SetActiveCell(Some(segs[0]))
    ensures k > 0 ==>
      g.WriteSegments(segs[..k + 1]) == g.WriteSegments(segs[..k]).ActivateNextCell().SetActiveCell(Some(segs[k]))
  {
    var next := segs[..k + 1];
    assert next[..k] == segs[..k] && next[k] == segs[k];
  }
}
