/** The change-tracking character screen of common/ui/src/text_screen.c, on values. */
module ScreenModel {
  import opened Bits
  import opened CIntegers

  const ROWS: nat := 20
  const COLS: nat := 30

  datatype Pos = Pos(row: nat, col: nat)

  datatype Cell = Cell(ch: char, fg: uint16, bg: uint16)

  /** What is on the screen model: its cells, one word of change marks per row, and the colours in force. */
  datatype Screen = Screen(cells: map<Pos, Cell>, marks: seq<uint32>, fg: uint16, bg: uint16)

  predicate OnGrid(p: Pos) {
    p.row < ROWS && p.col < COLS
  }

  function Grid(): (g: set<Pos>)
    ensures forall p :: p in g <==> OnGrid(p)
  {
    set r, c | 0 <= r < ROWS && 0 <= c < COLS :: Pos(r, c)
  }

  /** Every cell of the grid is there, and no mark is set outside of it. */
  ghost predicate Valid(s: Screen) {
    && |s.marks| == ROWS
    && (forall p :: p in s.cells <==> OnGrid(p))
    && forall r :: 0 <= r < ROWS ==> s.marks[r] < Pow2(COLS)
  }

  predicate IsDirty(s: Screen, p: Pos)
    requires |s.marks| == ROWS
  {
    OnGrid(p) && HasBit(s.marks[p.row], p.col)
  }

  // ---- writing ---------------------------------------------------------------------------

  datatype Put = Put(row: nat, col: nat, ch: char)

  function PutChar(s: Screen, row: nat, col: nat, ch: char): (t: Screen)
    requires Valid(s)
    ensures Valid(t)
  {
    var p, cell := Pos(row, col), Cell(ch, s.fg, s.bg);
    if !OnGrid(p) || s.cells[p] == cell then s
    else
      hide Or, Pow2;
      MarkFits(s.marks[row], col);
      s.(cells := s.cells[p := cell], marks := s.marks[row := Or(s.marks[row], Pow2(col))])
  }

  lemma MarkFits(word: uint32, col: nat)
    requires word < Pow2(COLS) && col < COLS
    ensures Or(word, Pow2(col)) < Pow2(COLS) < TWO_32
    ensures Pow2(col) < Pow2(COLS)
  {
    Pow2Values();
    Pow2Monotone(col, COLS - 1);
    OrBelow(word, Pow2(col), COLS);
  }

  lemma {:induction false} Pow2Monotone(m: nat, n: nat)
    requires m <= n
    ensures Pow2(m) <= Pow2(n)
    decreases n
  {
    if m < n {
      Pow2Monotone(m, n - 1);
    }
  }

  function Puts(s: Screen, ps: seq<Put>): (t: Screen)
    requires Valid(s)
    ensures Valid(t) && t.fg == s.fg && t.bg == s.bg
  {
    if ps == [] then s
    else
      var last := ps[|ps| - 1];
      PutChar(Puts(s, ps[..|ps| - 1]), last.row, last.col, last.ch)
  }

  /** One character changes one cell to itself in the current colours and marks it if that is a change. */
  lemma PutCharAt(s: Screen, row: nat, col: nat, ch: char, p: Pos)
    requires Valid(s) && OnGrid(p)
    ensures var t := PutChar(s, row, col, ch);
      && t.cells[p] == (if p == Pos(row, col) then Cell(ch, s.fg, s.bg) else s.cells[p])
      && (IsDirty(t, p) <==> IsDirty(s, p) || t.cells[p] != s.cells[p])
  {
    hide HasBit, Or, Pow2;
    if OnGrid(Pos(row, col)) && p.row == row {
      HasBitOr(s.marks[row], Pow2(col), p.col);
      HasBitPow2(col, p.col);
    }
  }

  /** The last character a list of writes puts at p, or -1. */
  function LastPut(ps: seq<Put>, p: Pos): int {
    if ps == [] then -1
    else if ps[|ps| - 1].row == p.row && ps[|ps| - 1].col == p.col then |ps| - 1
    else LastPut(ps[..|ps| - 1], p)
  }

  lemma {:induction false} LastPutIs(ps: seq<Put>, p: Pos)
    ensures -1 <= LastPut(ps, p) < |ps|
    ensures var k := LastPut(ps, p);
      && (k >= 0 ==> ps[k].row == p.row && ps[k].col == p.col)
      && forall i :: k < i < |ps| ==> !(ps[i].row == p.row && ps[i].col == p.col)
  {
    if ps != [] {
      LastPutIs(ps[..|ps| - 1], p);
    }
  }

  /** Every cell shows the last character written to it, in the current colours, or what it showed before. */
  lemma {:induction false} PutsAt(s: Screen, ps: seq<Put>, p: Pos)
    requires Valid(s) && OnGrid(p)
    ensures var t, k := Puts(s, ps), LastPut(ps, p);
      && -1 <= k < |ps|
      && t.cells[p] == (if k < 0 then s.cells[p] else Cell(ps[k].ch, s.fg, s.bg))
      && (IsDirty(s, p) ==> IsDirty(t, p))
      && (t.cells[p] != s.cells[p] ==> IsDirty(t, p))
  {
    LastPutIs(ps, p);
    if ps != [] {
      var n := |ps| - 1;
      PutsAt(s, ps[..n], p);
      PutCharAt(Puts(s, ps[..n]), ps[n].row, ps[n].col, ps[n].ch, p);
    }
  }

  predicate Distinct(ps: seq<Put>) {
    forall i, k :: 0 <= i < k < |ps| ==> Pos(ps[i].row, ps[i].col) != Pos(ps[k].row, ps[k].col)
  }

  /** Writing the same thing twice costs nothing the second time: nothing changes, nothing is marked. */
  lemma {:induction false} RewritingIsFree(s: Screen, ps: seq<Put>, n: nat)
    requires Valid(s) && Distinct(ps) && n <= |ps|
    ensures Puts(Puts(s, ps), ps[..n]) == Puts(s, ps)
  {
    if n > 0 {
      var t := Puts(s, ps);
      var last := ps[n - 1];
      var p := Pos(last.row, last.col);
      assert ps[..n][..n - 1] == ps[..n - 1];
      RewritingIsFree(s, ps, n - 1);
      if OnGrid(p) {
        PutsAt(s, ps, p);
        LastPutIs(ps, p);
        assert LastPut(ps, p) == n - 1;
      }
    }
  }

  // ---- the drawing operations as lists of writes ------------------------------------------

  /** The formatted text as it reaches the screen: cut to one row, and at the first NUL. */
  function Shown(text: string): (t: string)
    ensures |t| <= COLS && t <= text
  {
    BeforeNul(text[..Min(|text|, COLS)])
  }

  function BeforeNul(text: string): (t: string)
    ensures t <= text
    ensures forall i :: 0 <= i < |t| ==> t[i] != '\0'
    ensures t != text ==> text[|t|] == '\0'
  {
    if text == "" || text[0] == '\0' then "" else [text[0]] + BeforeNul(text[1..])
  }

  /** Number of characters of a text that fit from a column to the edge. */
  function Room(col: uint8, text: string): (n: nat)
    ensures n <= |text|
  {
    if col as nat >= COLS then 0 else Min(|text|, COLS - col as nat)
  }

  function PrintPuts(row: uint8, col: uint8, text: string, pad: bool): seq<Put> {
    var t := Shown(text);
    var n := Room(col, t);
    var end := col as nat + n;
    seq(n, i requires 0 <= i < n => Put(row, col + i, t[i]))
    + (if pad && end < COLS then seq(COLS - end, i requires 0 <= i => Put(row, end + i, ' ')) else [])
  }

  function BarFill(width: uint8, permille: uint16): nat {
    var p := if permille > 1000 then 1000 else permille;
    MulMonotone(0, p, width);
    (width * p + 500) / 1000
  }

  /** The column of character i of a bar, in 8 bits. */
  function BarColumn(col: uint8, i: nat): (c: uint8) {
    (col + i) % 256
  }

  function BarPuts(row: uint8, col: uint8, width: uint8, permille: uint16): seq<Put> {
    seq(width as nat, i requires 0 <= i =>
      Put(row, BarColumn(col, i), if i < BarFill(width, permille) then '#' else '.'))
  }

  function ClearPuts(row: uint8): seq<Put> {
    seq(COLS, i requires 0 <= i => Put(row, i, ' '))
  }

  /** All thirty marks of a row. */
  const FULL_ROW: uint32 := 0x3FFF_FFFF

  lemma FullRow()
    ensures FULL_ROW == Pow2(COLS) - 1
    ensures forall c: nat :: HasBit(FULL_ROW, c) <==> c < COLS
  {
    Pow2Values();
    forall c: nat
      ensures HasBit(FULL_ROW, c) <==> c < COLS
    {
      HasBitOnes(COLS, c);
    }
  }

  lemma NoMark()
    ensures forall c: nat :: !HasBit(0, c)
  {
    forall c: nat
      ensures !HasBit(0, c)
    {
      ZeroHasNoBit(c);
    }
  }

  function MarkedAll(s: Screen): (t: Screen)
    requires Valid(s)
    ensures Valid(t)
    ensures forall p :: OnGrid(p) ==> IsDirty(t, p)
  {
    hide HasBit;
    FullRow();
    s.(marks := seq(ROWS, _ => FULL_ROW))
  }

  function Initial(fg: uint16, bg: uint16): (s: Screen)
    ensures Valid(s)
    ensures forall p :: OnGrid(p) ==> IsDirty(s, p)
  {
    hide HasBit;
    FullRow();
    Screen(map p | p in Grid() :: Cell(' ', fg, bg), seq(ROWS, _ => FULL_ROW), fg, bg)
  }

  // ---- flush -----------------------------------------------------------------------------

  datatype Draw = Draw(at: Pos, cell: Cell)

  /** The columns one row draws: the lowest mark first, each mark cleared as it is taken. */
  function MarkedColumns(bits: nat): (cs: seq<nat>)
    decreases bits
  {
    if bits == 0 then []
    else
      ClearLowest(bits);
      [Ctz(bits)] + MarkedColumns(And(bits, bits - 1))
  }

  /** The callbacks of one row. */
  function RowDraws(s: Screen, row: nat): (ds: seq<Draw>)
    requires Valid(s) && row < ROWS
  {
    var cs := MarkedColumns(s.marks[row]);
    MarkedColumnsExact(s.marks[row]);
    ColumnsOnGrid(s, row);
    seq(|cs|, i requires 0 <= i < |cs| => Draw(Pos(row, cs[i]), s.cells[Pos(row, cs[i])]))
  }

  lemma ColumnsOnGrid(s: Screen, row: nat)
    requires Valid(s) && row < ROWS
    ensures var cs := MarkedColumns(s.marks[row]);
      forall i :: 0 <= i < |cs| ==> OnGrid(Pos(row, cs[i]))
  {
    hide HasBit, MarkedColumns;
    var cs := MarkedColumns(s.marks[row]);
    MarkedColumnsExact(s.marks[row]);
    forall i | 0 <= i < |cs|
      ensures cs[i] < COLS
    {
      if cs[i] >= COLS {
        HighBitsClear(s.marks[row], COLS, cs[i]);
      }
    }
  }

  /** The set bits of a word, each once, in increasing order. */
  lemma {:induction false} MarkedColumnsExact(bits: nat)
    ensures var cs := MarkedColumns(bits);
      && |cs| == PopCount(bits)
      && (forall i, k :: 0 <= i < k < |cs| ==> cs[i] < cs[k])
      && (forall i :: 0 <= i < |cs| ==> HasBit(bits, cs[i]))
      && (forall c: nat :: HasBit(bits, c) ==> c in cs)
    decreases bits
  {
    hide HasBit, And, Ctz, PopCount;
    if bits == 0 {
      NoMark();
      NoPop();
    } else {
      var rest := And(bits, bits - 1);
      ClearLowest(bits);
      MarkedColumnsExact(rest);
      var cs, es := MarkedColumns(bits), MarkedColumns(rest);
      assert cs == [Ctz(bits)] + es;
      forall k | 0 <= k < |es|
        ensures HasBit(bits, es[k]) && Ctz(bits) < es[k]
      {
        assert HasBit(rest, es[k]);
      }
      forall c: nat | HasBit(bits, c)
        ensures c in cs
      {
        if c != Ctz(bits) {
          assert c in es;
        }
      }
    }
  }

  lemma NoPop()
    ensures PopCount(0) == 0
  {
  }

  /** The callbacks of the first n rows. */
  function FlushDraws(s: Screen, n: nat): seq<Draw>
    requires Valid(s) && n <= ROWS
  {
    if n == 0 then [] else FlushDraws(s, n - 1) + RowDraws(s, n - 1)
  }

  function Flushed(s: Screen): (t: Screen)
    requires Valid(s)
    ensures Valid(t)
    ensures forall p :: !IsDirty(t, p)
  {
    hide HasBit;
    NoMark();
    s.(marks := seq(ROWS, _ => 0))
  }

  function MarkCount(marks: seq<uint32>): nat {
    if marks == [] then 0 else MarkCount(marks[..|marks| - 1]) + PopCount(marks[|marks| - 1])
  }

  predicate Before(p: Pos, q: Pos) {
    p.row < q.row || (p.row == q.row && p.col < q.col)
  }

  /** In strictly increasing order of rows and columns, so in particular without repetition. */
  predicate Ordered(ds: seq<Draw>) {
    forall i, k :: 0 <= i < k < |ds| ==> Before(ds[i].at, ds[k].at)
  }

  predicate Drawn(ds: seq<Draw>, p: Pos) {
    exists i :: 0 <= i < |ds| && ds[i].at == p
  }

  lemma RowDrawsExact(s: Screen, row: nat)
    requires Valid(s) && row < ROWS
    ensures var ds := RowDraws(s, row);
      && |ds| == PopCount(s.marks[row])
      && Ordered(ds)
      && (forall i :: 0 <= i < |ds| ==> ds[i].at.row == row && Faithful(s, ds[i]))
      && (forall p: Pos :: p.row == row && IsDirty(s, p) ==> Drawn(ds, p))
  {
    hide HasBit, PopCount, MarkedColumns;
    var cs, ds := MarkedColumns(s.marks[row]), RowDraws(s, row);
    MarkedColumnsExact(s.marks[row]);
    ColumnsOnGrid(s, row);
    forall p: Pos | p.row == row && IsDirty(s, p)
      ensures Drawn(ds, p)
    {
      var i :| 0 <= i < |cs| && cs[i] == p.col;
      assert ds[i].at == p;
    }
  }

  /** A dirty cell, drawn as it is. */
  predicate Faithful(s: Screen, d: Draw)
    requires |s.marks| == ROWS
  {
    IsDirty(s, d.at) && d.at in s.cells && d.cell == s.cells[d.at]
  }

  lemma DrawnLater(a: seq<Draw>, b: seq<Draw>, p: Pos)
    requires Drawn(a, p) || Drawn(b, p)
    ensures Drawn(a + b, p)
  {
    if Drawn(a, p) {
      var i :| 0 <= i < |a| && a[i].at == p;
      assert (a + b)[i].at == p;
    } else {
      var i :| 0 <= i < |b| && b[i].at == p;
      assert (a + b)[|a| + i].at == p;
    }
  }

  /** A flush draws exactly the dirty cells of the rows it has passed, each once, in order, as they are. */
  lemma {:induction false} FlushDrawsExact(s: Screen, n: nat)
    requires Valid(s) && n <= ROWS
    ensures var ds := FlushDraws(s, n);
      && |ds| == MarkCount(s.marks[..n])
      && Ordered(ds)
      && (forall i :: 0 <= i < |ds| ==> ds[i].at.row < n && Faithful(s, ds[i]))
      && (forall p: Pos :: p.row < n && IsDirty(s, p) ==> Drawn(ds, p))
  {
    hide IsDirty, PopCount, RowDraws, Drawn, Faithful;
    if n > 0 {
      var a, b := FlushDraws(s, n - 1), RowDraws(s, n - 1);
      FlushDrawsExact(s, n - 1);
      RowDrawsExact(s, n - 1);
      assert s.marks[..n][..n - 1] == s.marks[..n - 1];
      forall p: Pos | p.row < n && IsDirty(s, p)
        ensures Drawn(a + b, p)
      {
        DrawnLater(a, b, p);
      }
    }
  }
}
