/** vga_print.c: an 80x25 text screen that scrolls in place. */
module Terminal {
  const WIDTH: nat := 80
  const HEIGHT: nat := 25
  const CELLS: nat := WIDTH * HEIGHT
  const NEWLINE: bv8 := 0x0A
  const SPACE: bv8 := 0x20
  /** Light grey on black. */
  const DEFAULT_COLOR: bv8 := 0x07

  /** entry: `char` is signed, so the widening copies its top bit into the colour byte. */
  function Entry(c: bv8, color: bv8): bv16 {
    (if c & 0x80 != 0 then 0xFF00 | (c as bv16) else c as bv16) | ((color as bv16) << 8)
  }

  /** A cell keeps its colour exactly for 7-bit characters, or when the colour has all bits set. */
  lemma EntryKeepsColourIff(c: bv8, color: bv8)
    ensures Entry(c, color) & 0x00FF == c as bv16
    ensures Entry(c, color) & 0xFF00 == (color as bv16) << 8 <==> c & 0x80 == 0 || color == 0xFF
  {}

  // ---------- The unbounded layout

  /** Every line ever begun, 80 cells each; the cursor; the colour. */
  datatype Page = Page(cells: seq<bv16>, row: nat, column: nat, color: bv8)

  function Fill(n: nat, cell: bv16): (s: seq<bv16>)
    ensures |s| == n && forall i :: 0 <= i < n ==> s[i] == cell
  {
    if n == 0 then [] else Fill(n - 1, cell) + [cell]
  }

  const BLANK_PAGE := Page(Fill(CELLS, Entry(SPACE, DEFAULT_COLOR)), 0, 0, DEFAULT_COLOR)

  /** Whole lines, and the cursor within the last 25 of them. */
  predicate WellFormed(p: Page) {
    && |p.cells| % WIDTH == 0 && |p.cells| >= CELLS
    && p.column < WIDTH && |p.cells| - CELLS <= p.row * WIDTH < |p.cells|
  }

  /** The cursor's place among all cells. */
  function Position(p: Page): nat {
    p.row * WIDTH + p.column
  }

  /** A cursor past the last line begins a new line of blanks, and nothing is lost. */
  function Settle(p: Page): Page {
    if p.row * WIDTH == |p.cells| then p.(cells := p.cells + Fill(WIDTH, Entry(SPACE, p.color))) else p
  }

  /** The page with the character written and the cursor moved, before a new line is begun. */
  function Move(p: Page, c: bv8): Page
    requires WellFormed(p)
  {
    if c == NEWLINE then p.(row := p.row + 1, column := 0)
    else
      var written := p.(cells := p.cells[Position(p) := Entry(c, p.color)]);
      if p.column + 1 == WIDTH then written.(row := p.row + 1, column := 0) else written.(column := p.column + 1)
  }

  /** One character, wrapping as soon as a line is full. */
  function Put(p: Page, c: bv8): Page
    requires WellFormed(p)
  {
    Settle(Move(p, c))
  }

  lemma MoveWrites(p: Page, c: bv8)
    requires WellFormed(p) && c != NEWLINE
    ensures var p' := Move(p, c);
      && p'.color == p.color && p'.cells == p.cells[Position(p) := Entry(c, p.color)]
      && (if p.column + 1 == WIDTH then p'.row == p.row + 1 && p'.column == 0
          else p'.row == p.row && p'.column == p.column + 1)
  {}

  /** The cursor as a cell of the screen. */
  lemma CursorOnScreen(p: Page, row: nat)
    requires WellFormed(p) && row * WIDTH == p.row * WIDTH - (|p.cells| - CELLS)
    ensures row * WIDTH + p.column == Position(p) - (|p.cells| - CELLS) < CELLS
    ensures |p.cells| - CELLS <= Position(p) < |p.cells|
  {}

  lemma MoveKeeps(p: Page, c: bv8)
    requires WellFormed(p)
    ensures var p' := Move(p, c); |p'.cells| == |p.cells| && p'.row * WIDTH <= |p'.cells|
  {}

  lemma PutKeeps(p: Page, c: bv8)
    requires WellFormed(p)
    ensures WellFormed(Put(p, c))
    ensures |p.cells| <= |Put(p, c).cells| <= |p.cells| + WIDTH
  {}

  function PutAll(p: Page, text: seq<bv8>): Page
    requires WellFormed(p)
    decreases |text|
  {
    if text == [] then p
    else
      PutKeeps(p, text[0]);
      PutAll(Put(p, text[0]), text[1..])
  }

  /** Text is laid out character by character: one is Put, and a concatenation is its parts in turn. */
  lemma {:induction false} PutAllInTurn(p: Page, text: seq<bv8>, more: seq<bv8>, c: bv8)
    requires WellFormed(p)
    ensures PutAll(p, [c]) == Put(p, c)
    ensures WellFormed(PutAll(p, text)) && PutAll(p, text + more) == PutAll(PutAll(p, text), more)
    decreases |text|
  {
    hide Put;
    PutKeeps(p, c);
    assert [c][1..] == [];
    if text == [] {
      assert text + more == more;
    } else {
      assert (text + more)[1..] == text[1..] + more;
      PutKeeps(p, text[0]);
      PutAllInTurn(Put(p, text[0]), text[1..], more, c);
    }
  }

  /** A printed character advances the cursor by one cell and changes only the cell it left. */
  lemma PutPrints(p: Page, c: bv8)
    requires WellFormed(p) && c != NEWLINE
    ensures var p' := Put(p, c);
      && Position(p') == Position(p) + 1 && p'.color == p.color
      && p'.cells[Position(p)] == Entry(c, p.color)
      && (forall k :: 0 <= k < |p.cells| && k != Position(p) ==> p'.cells[k] == p.cells[k])
      && |p'.cells| == |p.cells| + (if Position(p) + 1 == |p.cells| then 80 else 0)
      && forall k :: |p.cells| <= k < |p'.cells| ==> p'.cells[k] == Entry(0x20, p.color)
  {}

  /** The screen starts with 25 lines of light grey blanks and the cursor at their beginning. */
  lemma StartsBlank()
    ensures WellFormed(BLANK_PAGE) && Position(BLANK_PAGE) == 0 && BLANK_PAGE.color == 0x07
    ensures |BLANK_PAGE.cells| == 80 * 25 && forall k :: 0 <= k < 80 * 25 ==> BLANK_PAGE.cells[k] == 0x0720
  {
    assert Entry(0x20, 0x07) == 0x0720;
  }

  /** A newline goes to the start of the next line; every old cell stays, and a line added for it
      is blank in the current colour. */
  lemma NewlineBreaks(p: Page)
    requires WellFormed(p)
    ensures var p' := Put(p, 0x0A);
      && Position(p') == (p.row + 1) * WIDTH && p'.color == p.color
      && p.cells <= p'.cells
      && forall k :: |p.cells| <= k < |p'.cells| ==> p'.cells[k] == Entry(SPACE, p.color)
  {}

  /** Text without newlines lands in consecutive cells and disturbs no other. */
  lemma {:induction false} TextLandsInOrder(p: Page, text: seq<bv8>)
    requires WellFormed(p) && NEWLINE !in text
    ensures var p' := PutAll(p, text);
      && WellFormed(p') && Position(p') == Position(p) + |text| && |p'.cells| >= |p.cells|
      && (forall i :: 0 <= i < |text| ==> p'.cells[Position(p) + i] == Entry(text[i], p.color))
      && (forall k :: 0 <= k < |p.cells| && !(Position(p) <= k < Position(p) + |text|) ==> p'.cells[k] == p.cells[k])
    decreases |text|
  {
    hide Put, Entry;
    if text != [] {
      PutKeeps(p, text[0]);
      PutPrints(p, text[0]);
      TextLandsInOrder(Put(p, text[0]), text[1..]);
    }
  }

  /** A character printed or a colour chosen. */
  datatype Op = Print(c: bv8) | Colour(color: bv8)

  function Perform(p: Page, ops: seq<Op>): Page
    requires WellFormed(p)
    decreases |ops|
  {
    if ops == [] then p
    else
      match ops[0]
      case Print(c) =>
        PutKeeps(p, c);
        Perform(Put(p, c), ops[1..])
      case Colour(color) => Perform(p.(color := color), ops[1..])
  }

  /** The same for characters and colours: one of each, and a concatenation. */
  lemma {:induction false} PerformInTurn(p: Page, ops: seq<Op>, more: seq<Op>, op: Op)
    requires WellFormed(p)
    ensures Perform(p, [op]) == match op case Print(c) => Put(p, c) case Colour(color) => p.(color := color)
    ensures WellFormed(Perform(p, ops)) && Perform(p, ops + more) == Perform(Perform(p, ops), more)
    decreases |ops|
  {
    hide Put;
    if op.Print? {
      PutKeeps(p, op.c);
    }
    assert [op][1..] == [];
    if ops == [] {
      assert ops + more == more;
    } else {
      assert (ops + more)[1..] == ops[1..] + more;
      if ops[0].Print? {
        PutKeeps(p, ops[0].c);
        PerformInTurn(Put(p, ops[0].c), ops[1..], more, op);
      } else {
        PerformInTurn(p.(color := ops[0].color), ops[1..], more, op);
      }
    }
  }

  // ---------- The screen

  class Vga {
    const buffer: array<bv16>
    var row: nat
    var column: nat
    var color: bv8
    ghost var page: Page

    /** The buffer shows the last 25 lines of p, and the variables its cursor and colour. */
    ghost predicate Shows(p: Page)
      reads this, buffer
    {
      && buffer.Length == CELLS <= |p.cells|
      && color == p.color && column == p.column
      && row * WIDTH == p.row * WIDTH - (|p.cells| - CELLS)
      && buffer[..] == p.cells[|p.cells| - CELLS..]
    }

    ghost predicate Valid()
      reads this, buffer
    {
      WellFormed(page) && Shows(page)
    }

    /** vga_terminal_initialize over the memory at 0xB8000. */
    constructor (memory: array<bv16>)
      requires memory.Length == CELLS
      modifies memory
      ensures Valid() && page == BLANK_PAGE && buffer == memory
    {
      row, column, color, buffer := 0, 0, DEFAULT_COLOR, memory;
      page := BLANK_PAGE;
      new;
      var y := 0;
      while y < HEIGHT
        invariant 0 <= y <= HEIGHT
        invariant forall k :: 0 <= k < y * WIDTH ==> buffer[k] == Entry(SPACE, DEFAULT_COLOR)
        invariant row == 0 && column == 0 && color == DEFAULT_COLOR && page == BLANK_PAGE
      {
        var x := 0;
        while x < WIDTH
          invariant 0 <= x <= WIDTH
          invariant forall k :: 0 <= k < y * WIDTH + x ==> buffer[k] == Entry(SPACE, DEFAULT_COLOR)
          invariant row == 0 && column == 0 && color == DEFAULT_COLOR && page == BLANK_PAGE
        {
          buffer[y * WIDTH + x] := Entry(SPACE, color);
          x := x + 1;
        }
        y := y + 1;
      }
    }

    method SetColor(color: bv8)
      requires Valid()
      modifies `color, `page
      ensures Valid() && page == old(page).(color := color) && this.color == color
    {
      this.color := color;
      page := page.(color := color);
    }

    method PutEntryAt(c: bv8, color: bv8, x: nat, y: nat)
      requires buffer.Length == CELLS && y * WIDTH + x < CELLS
      modifies buffer
      ensures buffer[..] == old(buffer[..])[y * WIDTH + x := Entry(c, color)]
    {
      buffer[y * WIDTH + x] := Entry(c, color);
    }

    /** scroll: each cell from line `lines` on moves up by that many lines, leaving a blank behind. */
    method Scroll(lines: nat)
      requires buffer.Length == CELLS && 1 <= lines <= HEIGHT
      modifies buffer
      ensures forall k :: 0 <= k < CELLS ==>
        buffer[k] == Scrolled(old(buffer[..]), lines, CELLS, Entry(SPACE, color), k)
    {
      var y := lines;
      while y != HEIGHT
        invariant lines <= y <= HEIGHT
        invariant forall k :: 0 <= k < CELLS ==>
          buffer[k] == Scrolled(old(buffer[..]), lines, y * WIDTH, Entry(SPACE, color), k)
        decreases HEIGHT - y
      {
        var x := 0;
        while x != WIDTH
          invariant 0 <= x <= WIDTH
          invariant forall k :: 0 <= k < CELLS ==>
            buffer[k] == Scrolled(old(buffer[..]), lines, y * WIDTH + x, Entry(SPACE, color), k)
          decreases WIDTH - x
        {
          var src := y * WIDTH + x;
          var dest := (y - lines) * WIDTH + x;
          buffer[dest] := buffer[src];
          buffer[src] := Entry(SPACE, color);
          x := x + 1;
        }
        y := y + 1;
      }
    }

    /** vga_print.c:79-82 */
    method ScrollIfPast(ghost p: Page)
      requires Shows(p) && |p.cells| % WIDTH == 0 && p.row * WIDTH <= |p.cells|
      modifies buffer, `row
      ensures Shows(Settle(p))
    {
      hide Entry;
      if row == HEIGHT {
        Scroll(1);
        row := row - 1;
        ScrollDropsOldest(p.cells, Entry(SPACE, p.color));
      }
    }

    /** vga_print.c:68-77: write the character, unless it is a newline, and move the cursor. */
    method WriteAndMove(c: bv8)
      requires Valid()
      modifies `row, `column, buffer
      ensures Shows(Move(page, c))
    {
      hide Entry, WellFormed, Position;
      if c == NEWLINE {
        column := 0;
        row := row + 1;
      } else {
        hide Move;
        MoveWrites(page, c);
        CursorOnScreen(page, row);
        WriteShows(page.cells, Position(page), Entry(c, color));
        PutEntryAt(c, color, column, row);
        column := column + 1;
        if column == WIDTH {
          column := 0;
          row := row + 1;
        }
      }
    }

    /** vga_putchar: writing, wrapping and scrolling in place show the layout's last 25 lines. */
    method Putchar(c: bv8)
      requires Valid()
      modifies this, buffer
      ensures Valid() && page == Put(old(page), c)
      ensures row < HEIGHT && column < WIDTH
    {
      hide Entry, Settle, Move;
      PutKeeps(page, c);
      MoveKeeps(page, c);
      WriteAndMove(c);
      ScrollIfPast(Move(page, c));
      page := Put(page, c);
    }

    method Write(text: seq<bv8>)
      requires Valid()
      modifies this, buffer
      ensures Valid() && page == PutAll(old(page), text)
    {
      var i := 0;
      while i < |text|
        invariant 0 <= i <= |text| && Valid()
        invariant PutAll(page, text[i..]) == PutAll(old(page), text)
      {
        assert text[i..][0] == text[i] && text[i..][1..] == text[i + 1..];
        Putchar(text[i]);
        i := i + 1;
      }
    }

    /** Any run of characters and colour changes: the cursor stays on the screen, which shows the
        last 25 lines of the layout. */
    method PerformAll(ops: seq<Op>)
      requires Valid()
      modifies this, buffer
      ensures Valid() && page == Perform(old(page), ops)
      ensures row < HEIGHT && column < WIDTH
    {
      hide Put;
      var i := 0;
      while i < |ops|
        invariant 0 <= i <= |ops| && Valid()
        invariant Perform(page, ops[i..]) == Perform(old(page), ops)
      {
        assert ops[i..][0] == ops[i] && ops[i..][1..] == ops[i + 1..];
        match ops[i] {
          case Print(c) => Putchar(c);
          case Colour(color) => SetColor(color);
        }
        i := i + 1;
      }
    }
  }

  /** Cell k once the cells below `upTo` have been moved up by `lines` lines. */
  function Scrolled(cells: seq<bv16>, lines: nat, upTo: nat, blank: bv16, k: nat): bv16
    requires |cells| == CELLS && k < CELLS && upTo <= CELLS
  {
    if k + lines * WIDTH < upTo then cells[k + lines * WIDTH]
    else if lines * WIDTH <= k < upTo then blank
    else cells[k]
  }

  /** Scrolling by one line shows the layout with a new line begun. */
  lemma ScrollDropsOldest(cells: seq<bv16>, blank: bv16)
    requires |cells| >= CELLS
    ensures var more, shown := cells + Fill(WIDTH, blank), cells[|cells| - CELLS..];
      forall k :: 0 <= k < CELLS ==> Scrolled(shown, 1, CELLS, blank, k) == more[|more| - CELLS..][k]
  {}

  lemma WriteShows(cells: seq<bv16>, pos: nat, cell: bv16)
    requires |cells| - CELLS <= pos < |cells| && |cells| >= CELLS
    ensures var top := |cells| - CELLS; cells[pos := cell][top..] == cells[top..][pos - top := cell]
  {}
}
