/** The unbounded terminal: the simple form of the text console. It only ever appends. */
module Terminals {
  import opened Bytes
  import opened Characters

  const WIDTH := 80
  const HEIGHT := 25
  const DEFAULT_COLOR: byte := 7

  type Row = r: seq<byte> | |r| == WIDTH witness Zeros(WIDTH)

  /** The rows above, the row being written, and the column of the cursor. */
  datatype Terminal = Terminal(above: seq<Row>, line: Row, x: nat) {
    function Feed(): Terminal { Terminal(above + [line], Zeros(WIDTH), 0) }

    /** One character in the current column, going on to the next row after the last column. */
    function Type(c: byte): (t: Terminal)
      requires x < WIDTH
      ensures t.x < WIDTH
    {
      var typed := Terminal(above, line[x := c], x + 1);
      if typed.x >= WIDTH then typed.Feed() else typed
    }

    function Spaces(n: nat): (t: Terminal)
      requires x < WIDTH
      ensures t.x < WIDTH
    {
      if n == 0 then this else Spaces(n - 1).Type(SPACE)
    }

    function Put(c: byte): (t: Terminal)
      requires x < WIDTH
      ensures t.x < WIDTH
    {
      if c == NEWLINE then Feed()
      else if c == RETURN then this.(x := 0)
      else if c == TAB then Spaces(TabWidth(x))
      else Type(c)
    }

    function PutAll(s: seq<byte>): (t: Terminal)
      requires x < WIDTH
      ensures t.x < WIDTH
    {
      if s == [] then this else PutAll(s[..|s| - 1]).Put(s[|s| - 1])
    }

    /** The row of the history that is at the top of the screen, and the row of the cursor. */
    function Top(): nat { if |above| < HEIGHT then 0 else |above| - (HEIGHT - 1) }
    function Y(): nat { |above| - Top() }

    /** The character the screen shows at column `i` of row `r`. */
    function At(i: nat, r: nat): byte
      requires i < WIDTH
    {
      if Top() + r < |above| then above[Top() + r][i] else if Top() + r == |above| then line[i] else 0
    }
  }

  function Fresh(): Terminal { Terminal([], Zeros(WIDTH), 0) }

  /** How many spaces a tab is: the loop bound moves with the cursor. */
  function TabWidth(x: nat): nat { if x % 4 < 2 then 2 else if x % 4 == 2 then 1 else 3 }

  lemma NextColumn(a: nat, b: nat)
    requires a % 4 == b % 4
    ensures (a + 1) % 4 == (b + 1) % 4
  {
  }

  /** The width of the screen is a multiple of four, so that columns modulo 4 just count on. */
  lemma {:induction false} SpacesColumn(t: Terminal, n: nat)
    requires t.x < WIDTH
    ensures t.Spaces(n).x % 4 == (t.x + n) % 4
  {
    if n > 0 {
      SpacesColumn(t, n - 1);
      NextColumn(t.Spaces(n - 1).x, t.x + n - 1);
    }
  }

  /** The documented purpose of a tab is missed: it never ends at a multiple of four. */
  lemma TabNeverAligns(t: Terminal)
    requires t.x < WIDTH
    ensures t.Put(9).x % 4 == if t.x % 4 == 1 || t.x % 4 == 2 then 3 else 2
  {
    SpacesColumn(t, TabWidth(t.x));
  }

  /** A tab is one to three blanks, which overwrite what was there. */
  lemma TabIsBlanks(t: Terminal)
    requires t.x < WIDTH
    ensures var n := if t.x % 4 < 2 then 2 else if t.x % 4 == 2 then 1 else 3;
      t.Put(9) == t.PutAll(seq(n, _ => 32))
  {
    BlanksPut(t, TabWidth(t.x));
  }

  lemma {:induction false} BlanksPut(t: Terminal, n: nat)
    requires t.x < WIDTH
    ensures t.Spaces(n) == t.PutAll(seq(n, _ => 32))
  {
    if n > 0 {
      var blanks: seq<byte> := seq(n, _ => 32);
      assert blanks[..n - 1] == seq(n - 1, _ => 32);
      BlanksPut(t, n - 1);
    }
  }

  lemma {:induction false} PutAllJoin(t: Terminal, a: seq<byte>, b: seq<byte>)
    requires t.x < WIDTH
    ensures t.PutAll(a + b) == t.PutAll(a).PutAll(b)
    decreases |b|
  {
    if b == [] {
      assert a + b == a;
    } else {
      var joined, front := a + b, b[..|b| - 1];
      assert joined[..|joined| - 1] == a + front;
      PutAllJoin(t, a, front);
    }
  }

  lemma PutOne(t: Terminal, c: byte)
    requires t.x < WIDTH
    ensures t.PutAll([c]) == t.Put(c)
  {
    assert [c][..0] == [];
  }

  lemma {:induction false} SpacesKeepAbove(t: Terminal, n: nat)
    requires t.x < WIDTH
    ensures t.above <= t.Spaces(n).above
  {
    if n > 0 {
      SpacesKeepAbove(t, n - 1);
    }
  }

  /** A row that has been left is never changed again. */
  lemma {:induction false} HistoryKept(t: Terminal, s: seq<byte>)
    requires t.x < WIDTH
    ensures t.above <= t.PutAll(s).above
    decreases |s|
  {
    if s != [] {
      HistoryKept(t, s[..|s| - 1]);
      var u := t.PutAll(s[..|s| - 1]);
      if s[|s| - 1] == TAB {
        SpacesKeepAbove(u, TabWidth(u.x));
      }
    }
  }

  predicate Printable(c: byte) { c != NEWLINE && c != RETURN && c != TAB }

  /** Text that fits in the row goes where the cursor is, and nowhere else. */
  lemma {:induction false} TextInPlace(t: Terminal, s: seq<byte>)
    requires t.x + |s| < WIDTH && forall i :: 0 <= i < |s| ==> Printable(s[i])
    ensures t.PutAll(s) == Terminal(t.above, Patch(t.line, t.x, s), t.x + |s|)
    decreases |s|
  {
    if s == [] {
      assert Patch(t.line, t.x, s) == t.line;
    } else {
      var n := |s| - 1;
      TextInPlace(t, s[..n]);
      assert Patch(t.line, t.x, s) == Patch(t.line, t.x, s[..n])[t.x + n := s[n]];
    }
  }

  predicate Text(s: seq<byte>) {
    forall i :: 0 <= i < |s| ==> s[i] != 9 && s[i] != 10 && s[i] != 13
  }

  /** A character in the last column completes the row, and the cursor goes on below it. */
  lemma RowFilled(t: Terminal, s: seq<byte>)
    requires t.x < WIDTH && t.x + |s| == 80 && Text(s)
    ensures t.PutAll(s) == Terminal(t.above + [Patch(t.line, t.x, s)], Zeros(80), 0)
  {
    var n := |s| - 1;
    TextInPlace(t, s[..n]);
    assert Patch(t.line, t.x, s) == Patch(t.line, t.x, s[..n])[79 := s[n]];
  }

  /** A carriage return goes back to the start of the row, and text after it overwrites the row. */
  lemma Overwritten(t: Terminal, s: seq<byte>)
    requires t.x < WIDTH && |s| < 80 && Text(s)
    ensures t.PutAll([13] + s) == Terminal(t.above, Patch(t.line, 0, s), |s|)
  {
    PutOne(t, 13);
    PutAllJoin(t, [13], s);
    TextInPlace(t.Put(13), s);
  }

  /** A newline leaves the row as it is and goes on with an empty one. */
  lemma RowLeft(t: Terminal)
    requires t.x < WIDTH
    ensures t.PutAll([10]) == Terminal(t.above + [t.line], Zeros(80), 0)
  {
    PutOne(t, 10);
  }
}

/** The 80x25 text screen: 4000 bytes changed in place, and the cursor. */
module Console {
  import opened Bytes
  import opened Characters
  import opened ShortNames
  import opened Terminals

  const SIZE := 2 * WIDTH * HEIGHT

  /** Byte `k` of the screen memory when it shows the bottom window of a terminal. */
  function Pixel(t: Terminal, k: nat): byte {
    if k % 2 == 1 then DEFAULT_COLOR else t.At(k % 160 / 2, k / 160)
  }

  ghost predicate Shows(screen: seq<byte>, t: Terminal) {
    |screen| == SIZE && forall k :: 0 <= k < SIZE ==> screen[k] == Pixel(t, k)
  }

  /** The cells of the screen: the last 25 rows of all that was written, characters at the even
      bytes, the default colour at the odd ones. */
  lemma CellsShown(screen: seq<byte>, t: Terminal, i: nat, r: nat)
    requires Shows(screen, t) && i < 80 && r < 25
    ensures var rows := t.above + [t.line];
      var first := if |rows| > 25 then |rows| - 25 else 0;
      && screen[2 * (80 * r + i)] == (if first + r < |rows| then rows[first + r][i] else 0)
      && screen[2 * (80 * r + i) + 1] == 7
  {
    CellIndex(i, r);
    var k := 2 * (80 * r + i);
    assert screen[k] == Pixel(t, k) && screen[k + 1] == Pixel(t, k + 1);
  }

  lemma CellIndex(x: nat, y: nat)
    requires x < WIDTH
    ensures (2 * (y * WIDTH + x)) % 160 / 2 == x && (2 * (y * WIDTH + x)) / 160 == y
    ensures (2 * (y * WIDTH + x)) % 2 == 0
  {
  }

  lemma CellUnique(x: nat, y: nat, k: nat)
    requires x < WIDTH && k % 160 / 2 == x && k / 160 == y && k % 2 == 0
    ensures k == 2 * (y * WIDTH + x)
  {
  }

  /** Writing the character at the cursor. */
  lemma ShowsTyped(screen: seq<byte>, t: Terminal, c: byte)
    requires Shows(screen, t) && t.x < WIDTH
    ensures 2 * (t.Y() * WIDTH + t.x) < SIZE
    ensures Shows(screen[2 * (t.Y() * WIDTH + t.x) := c], Terminal(t.above, t.line[t.x := c], t.x + 1))
  {
    var at := 2 * (t.Y() * WIDTH + t.x);
    var u := Terminal(t.above, t.line[t.x := c], t.x + 1);
    CellIndex(t.x, t.Y());
    forall k | 0 <= k < SIZE
      ensures screen[at := c][k] == Pixel(u, k)
    {
      if k % 2 == 0 && k % 160 / 2 == t.x && k / 160 == t.Y() {
        CellUnique(t.x, t.Y(), k);
      }
    }
  }

  /** Going on to the next row: nothing moves while there is room below, else all moves up. */
  lemma ShowsFed(screen: seq<byte>, t: Terminal)
    requires Shows(screen, t)
    ensures t.Y() < HEIGHT - 1 ==> Shows(screen, t.Feed())
    ensures t.Y() == HEIGHT - 1 ==> Shows(screen[160..] + EmptyRows(1), t.Feed())
  {
  }

  /** `lines` rows of blanks in the default colour. */
  function EmptyRows(lines: nat): (s: seq<byte>)
    ensures |s| == 160 * lines
    ensures forall k :: 0 <= k < |s| ==> s[k] == EmptyByte(k)
  {
    seq(160 * lines, k => EmptyByte(k))
  }

  function EmptyByte(k: int): byte { if k % 2 == 1 then DEFAULT_COLOR else 0 }

  /** The first `upto` bytes have been moved up by `shift`. */
  ghost predicate Moved(was: seq<byte>, now: seq<byte>, shift: nat, upto: nat) {
    && |was| == |now| == SIZE && upto + shift <= SIZE
    && (forall k :: 0 <= k < upto ==> now[k] == was[k + shift])
    && (forall k :: upto <= k < SIZE ==> now[k] == was[k])
  }

  lemma MoveOne(was: seq<byte>, now: seq<byte>, shift: nat, at: nat)
    requires Moved(was, now, shift, at) && at + 2 + shift <= SIZE
    ensures var now1 := now[at := now[at + shift]];
      Moved(was, now1[at + 1 := now1[at + 1 + shift]], shift, at + 2)
  {
    assert now[at + shift] == was[at + shift] && now[at + 1 + shift] == was[at + 1 + shift];
  }

  lemma MovedUp(was: seq<byte>, now: seq<byte>, shift: nat)
    requires shift <= SIZE && Moved(was, now, shift, SIZE - shift)
    ensures now[..SIZE - shift] == was[shift..]
  {
  }

  lemma TabGoesOn(t: Terminal, i: nat)
    requires t.x < WIDTH && i <= TabWidth(t.x)
    ensures i < 4 - t.Spaces(i).x % 4 <==> i < TabWidth(t.x)
  {
    SpacesColumn(t, i);
    TabBound(t.x, i, t.Spaces(i).x);
  }

  lemma TabBound(x: nat, i: nat, now: nat)
    requires i <= TabWidth(x) && now % 4 == (x + i) % 4
    ensures i < 4 - now % 4 <==> i < TabWidth(x)
  {
  }

  class Screen {
    const g: array<byte>
    var x: int
    var y: int
    /** The position registers of the hardware cursor. */
    var cursorLow: byte
    var cursorHigh: byte
    ghost var term: Terminal

    /** Between calls: the screen is the bottom window of the terminal, all in the default colour,
        with both cursors on the cell to be written next. */
    ghost predicate Valid()
      reads this, g
    {
      && g.Length == SIZE && term.x < WIDTH && Shows(g[..], term)
      && x == term.x && y == term.Y() && Cursor() == y * WIDTH + x
    }

    function Cursor(): nat
      reads `cursorLow, `cursorHigh
    {
      0x100 * cursorHigh as int + cursorLow as int
    }

    constructor ()
      ensures g.Length == SIZE && fresh(g)
    {
      g := new byte[SIZE];
      x, y := 0, 0;
      term := Fresh();
    }

    method Putchr(i: nat, r: nat, c: byte)
      requires g.Length == SIZE && i < WIDTH && r < HEIGHT
      modifies g
      ensures g[..] == old(g[..])[2 * (r * WIDTH + i) := c]
    {
      g[2 * (r * WIDTH + i)] := c;
    }

    method Putcolor(i: nat, r: nat, color: byte)
      requires g.Length == SIZE && i < WIDTH && r < HEIGHT
      modifies g
      ensures g[..] == old(g[..])[2 * (r * WIDTH + i) + 1 := color]
    {
      g[2 * (r * WIDTH + i) + 1] := color;
    }

    function Getchr(i: nat, r: nat): byte
      requires g.Length == SIZE && i < WIDTH && r < HEIGHT
      reads g
    {
      g[2 * (r * WIDTH + i)]
    }

    function Getcolor(i: nat, r: nat): byte
      requires g.Length == SIZE && i < WIDTH && r < HEIGHT
      reads g
    {
      g[2 * (r * WIDTH + i) + 1]
    }

    method Setcursor(i: nat, r: nat)
      requires i < WIDTH && r < HEIGHT
      modifies `cursorLow, `cursorHigh
      ensures Cursor() == r * WIDTH + i
    {
      var pos := r * WIDTH + i;
      cursorLow := pos % 0x100;
      cursorHigh := pos / 0x100 % 0x100;
    }

    /** Blanks in the default colour from row `first` on. */
    method ClearFrom(first: nat)
      requires g.Length == SIZE && first <= HEIGHT
      modifies g
      ensures g[..] == old(g[..])[..160 * first] + EmptyRows(HEIGHT - first)
    {
      ghost var was := g[..];
      for r := first to HEIGHT
        invariant forall k :: 0 <= k < SIZE ==> g[k] == if 160 * first <= k < 160 * r then EmptyByte(k) else was[k]
      {
        for i := 0 to WIDTH
          invariant forall k :: 0 <= k < SIZE ==>
            g[k] == if 160 * first <= k < 160 * r + 2 * i then EmptyByte(k) else was[k]
        {
          Putchr(i, r, 0);
          Putcolor(i, r, DEFAULT_COLOR);
        }
      }
    }

    method Clrscr()
      requires g.Length == SIZE
      modifies this, g
      ensures Valid() && term == Fresh()
    {
      ClearFrom(0);
      x, y := 0, 0;
      Setcursor(x, y);
      term := Fresh();
    }

    method CopyCell(i: nat, r: nat, lines: nat, ghost was: seq<byte>)
      requires g.Length == SIZE && i < WIDTH && lines <= r < HEIGHT
      requires Moved(was, g[..], 160 * lines, 160 * (r - lines) + 2 * i)
      modifies g
      ensures Moved(was, g[..], 160 * lines, 160 * (r - lines) + 2 * (i + 1))
    {
      ghost var now := g[..];
      MoveOne(was, now, 160 * lines, 160 * (r - lines) + 2 * i);
      var c := Getchr(i, r);
      Putchr(i, r - lines, c);
      var color := Getcolor(i, r);
      Putcolor(i, r - lines, color);
    }

    /** The rows are copied upwards in place; the ones that become free are blank. */
    method Scrollback(lines: nat)
      requires g.Length == SIZE && lines <= HEIGHT
      modifies g, `y
      ensures g[..] == old(g[..])[160 * lines..] + EmptyRows(lines) && y == old(y) - lines
    {
      ghost var was := g[..];
      for r := lines to HEIGHT
        invariant y == old(y) && Moved(was, g[..], 160 * lines, 160 * (r - lines))
      {
        for i := 0 to WIDTH
          invariant y == old(y) && Moved(was, g[..], 160 * lines, 160 * (r - lines) + 2 * i)
        {
          CopyCell(i, r, lines, was);
        }
      }
      MovedUp(was, g[..], 160 * lines);
      ClearFrom(HEIGHT - lines);
      y := y - lines;
    }

    method Putc(c: byte)
      requires Valid()
      modifies this, g
      ensures Valid() && term == old(term).Put(c)
      decreases c == TAB, 1
    {
      if c == NEWLINE {
        x, y := 0, y + 1;
        Settle(term);
        term := term.Feed();
      } else if c == TAB {
        PutTab();
      } else if c == RETURN {
        x := 0;
        term := term.(x := 0);
      } else {
        PutCell(c);
      }
      Setcursor(x, y);
    }

    /** The bound of the loop moves with the cursor. */
    method PutTab()
      requires Valid()
      modifies this, g
      ensures Valid() && term == old(term).Spaces(TabWidth(old(term).x))
      decreases true, 0
    {
      var i := 0;
      ghost var was := term;
      TabGoesOn(was, 0);
      while i < 4 - x % 4
        invariant 0 <= i <= TabWidth(was.x) && Valid() && term == was.Spaces(i)
        invariant i < 4 - x % 4 <==> i < TabWidth(was.x)
        decreases TabWidth(was.x) - i
      {
        Putc(SPACE);
        assert was.Spaces(i + 1) == was.Spaces(i).Type(SPACE);
        i := i + 1;
        TabGoesOn(was, i);
      }
    }

    method PutCell(c: byte)
      requires Valid()
      modifies this, g
      ensures g.Length == SIZE && Shows(g[..], term) && term == old(term).Type(c)
      ensures x == term.x && y == term.Y()
    {
      Putchr(x, y, c);
      ShowsTyped(old(g[..]), term, c);
      x := x + 1;
      term := Terminal(term.above, term.line[term.x := c], term.x + 1);
      if x >= WIDTH {
        y := y + 1;
        x := 0;
        Settle(term);
        term := term.Feed();
      }
    }

    /** The scroll after the cursor went below the last row. */
    method Settle(ghost t: Terminal)
      requires g.Length == SIZE && Shows(g[..], t) && y == t.Y() + 1
      modifies g, `y
      ensures Shows(g[..], t.Feed()) && y == t.Feed().Y()
    {
      ShowsFed(g[..], t);
      if y >= HEIGHT {
        Scrollback(1);
      }
    }

    /** Prints the C string at the start of `str`. */
    method Puts(str: seq<byte>)
      requires Valid() && 0 in str
      modifies this, g
      ensures Valid() && term == old(term).PutAll(CString(str))
    {
      ghost var n := |CString(str)|;
      var i := 0;
      while str[i] != 0
        invariant 0 <= i <= n < |str| && Valid() && term == old(term).PutAll(str[..i])
        decreases n - i
      {
        Putc(str[i]);
        assert str[..i + 1][..i] == str[..i];
        i := i + 1;
      }
    }
  }
}
