/** The screen and the panel it is flushed to, over whole runs: incremental redraw equals full redraw. */
module ScreenRuns {
  import opened Bits
  import opened CIntegers
  import opened ScreenModel

  /** What a program can do with a screen; a flush may be made without a callback. */
  datatype Op =
    | Init(fg: uint16, bg: uint16)
    | SetColors(fg: uint16, bg: uint16)
    | Print(row: uint8, col: uint8, text: string, pad: bool)
    | Bar(row: uint8, col: uint8, width: uint8, permille: uint16)
    | ClearRow(row: uint8)
    | MarkAllDirty
    | Flush(drawing: bool)

  type Panel = map<Pos, Cell>

  datatype System = System(screen: Screen, panel: Panel)

  /** The panel after a sequence of callbacks. */
  function Painted(panel: Panel, ds: seq<Draw>): Panel {
    if ds == [] then panel
    else Painted(panel, ds[..|ds| - 1])[ds[|ds| - 1].at := ds[|ds| - 1].cell]
  }

  function Applied(s: Screen, op: Op): (t: Screen)
    requires Valid(s)
    ensures Valid(t)
  {
    match op
    case Init(fg, bg) => Initial(fg, bg)
    case SetColors(fg, bg) => s.(fg := fg, bg := bg)
    case Print(row, col, text, pad) => Puts(s, PrintPuts(row, col, text, pad))
    case Bar(row, col, width, permille) => Puts(s, BarPuts(row, col, width, permille))
    case ClearRow(row) => Puts(s, ClearPuts(row))
    case MarkAllDirty => MarkedAll(s)
    case Flush(_) => Flushed(s)
  }

  function Next(y: System, op: Op): (z: System)
    requires Valid(y.screen)
    ensures Valid(z.screen)
  {
    System(Applied(y.screen, op),
           if op == Flush(true) then Painted(y.panel, FlushDraws(y.screen, ROWS)) else y.panel)
  }

  function Run(y: System, ops: seq<Op>): (z: System)
    requires Valid(y.screen)
    ensures Valid(z.screen)
    decreases |ops|
  {
    if ops == [] then y else Run(Next(y, ops[0]), ops[1..])
  }

  /** Every cell without a change mark already shows on the panel exactly what the model holds. */
  ghost predicate InSync(y: System) {
    Valid(y.screen) &&
    forall p :: OnGrid(p) && !IsDirty(y.screen, p) ==> p in y.panel && y.panel[p] == y.screen.cells[p]
  }

  /** The panel shows the whole model. */
  ghost predicate Identical(y: System) {
    Valid(y.screen) && forall p :: OnGrid(p) ==> p in y.panel && y.panel[p] == y.screen.cells[p]
  }

  // ---- painting --------------------------------------------------------------------------

  lemma {:induction false} PaintedAt(panel: Panel, ds: seq<Draw>, p: Pos)
    requires Ordered(ds)
    ensures forall i :: 0 <= i < |ds| && ds[i].at == p ==>
              p in Painted(panel, ds) && Painted(panel, ds)[p] == ds[i].cell
    ensures !Drawn(ds, p) ==> (p in Painted(panel, ds) <==> p in panel)
    ensures !Drawn(ds, p) && p in panel ==> Painted(panel, ds)[p] == panel[p]
  {
    if ds != [] {
      var n := |ds| - 1;
      PaintedAt(panel, ds[..n], p);
      if Drawn(ds[..n], p) {
        var i :| 0 <= i < n && ds[..n][i].at == p;
        assert ds[i].at == p && Before(ds[i].at, ds[n].at);
      } else {
        assert forall i :: 0 <= i < n ==> ds[..n][i].at != p;
      }
      assert Drawn(ds, p) || ds[n].at != p;
    }
  }

  /** A flush leaves dirty cells as in the model and the others as they were. */
  lemma FlushPaints(y: System, p: Pos)
    requires Valid(y.screen) && OnGrid(p)
    ensures var panel := Painted(y.panel, FlushDraws(y.screen, ROWS));
      if IsDirty(y.screen, p) then p in panel && panel[p] == y.screen.cells[p]
      else (p in panel <==> p in y.panel) && (p in panel ==> panel[p] == y.panel[p])
  {
    hide IsDirty;
    var ds := FlushDraws(y.screen, ROWS);
    FlushDrawsExact(y.screen, ROWS);
    PaintedAt(y.panel, ds, p);
    if Drawn(ds, p) {
      DrawnIsDirty(y.screen, ds, p);
    }
  }

  lemma DrawnIsDirty(s: Screen, ds: seq<Draw>, p: Pos)
    requires Valid(s) && Drawn(ds, p) && forall i :: 0 <= i < |ds| ==> Faithful(s, ds[i])
    ensures IsDirty(s, p)
    ensures exists i :: 0 <= i < |ds| && ds[i].at == p && ds[i].cell == s.cells[p]
  {
    var i :| 0 <= i < |ds| && ds[i].at == p;
    assert Faithful(s, ds[i]);
  }

  // ---- synchrony -------------------------------------------------------------------------

  /** Writing keeps the panel in sync: a changed cell is marked. */
  lemma PutsKeepSync(y: System, ps: seq<Put>)
    requires InSync(y)
    ensures InSync(y.(screen := Puts(y.screen, ps)))
  {
    hide Puts, IsDirty;
    forall p | OnGrid(p) && !IsDirty(Puts(y.screen, ps), p)
      ensures p in y.panel && y.panel[p] == Puts(y.screen, ps).cells[p]
    {
      PutsAt(y.screen, ps, p);
    }
  }

  lemma FlushSyncs(y: System)
    requires InSync(y)
    ensures Identical(Next(y, Flush(true)))
  {
    hide IsDirty;
    forall p | OnGrid(p)
      ensures var z := Next(y, Flush(true)); p in z.panel && z.panel[p] == z.screen.cells[p]
    {
      FlushPaints(y, p);
    }
  }

  lemma SetColorsKeepsSync(y: System, fg: uint16, bg: uint16)
    requires InSync(y)
    ensures InSync(Next(y, SetColors(fg, bg)))
  {
    var z := Next(y, SetColors(fg, bg));
    assert forall p :: IsDirty(z.screen, p) == IsDirty(y.screen, p);
  }

  /** Without a callback and with no mark set a flush does nothing. */
  lemma IdleFlushKeepsSync(y: System)
    requires InSync(y) && MarkCount(y.screen.marks) == 0
    ensures InSync(Next(y, Flush(false)))
  {
    hide IsDirty;
    FlushIsExact(y.screen);
    assert forall p :: !IsDirty(y.screen, p);
  }

  /**
    What a program can tell about the panel, given whether it could before: a silent flush that drops
    marks loses track of it, and marking everything, by init or otherwise, finds it again.
   */
  predicate Tracks(s: Screen, known: bool, op: Op) {
    match op
    case Init(_, _) => true
    case MarkAllDirty => true
    case Flush(drawing) => known && (drawing || MarkCount(s.marks) == 0)
    case _ => known
  }

  predicate Tracked(s: Screen, known: bool, ops: seq<Op>)
    requires Valid(s)
    decreases |ops|
  {
    if ops == [] then known else Tracked(Applied(s, ops[0]), Tracks(s, known, ops[0]), ops[1..])
  }

  lemma NextKeepsTrack(y: System, known: bool, op: Op)
    requires Valid(y.screen) && (known ==> InSync(y))
    ensures Tracks(y.screen, known, op) ==> InSync(Next(y, op))
  {
    hide Puts, PrintPuts, BarPuts, ClearPuts, Initial, MarkedAll, IsDirty, Flushed;
    match op
    case Init(fg, bg) => assert Next(y, op).screen == Initial(fg, bg);
    case MarkAllDirty => assert Next(y, op).screen == MarkedAll(y.screen);
    case SetColors(fg, bg) => if known { SetColorsKeepsSync(y, fg, bg); }
    case Print(row, col, text, pad) => if known { PutsKeepSync(y, PrintPuts(row, col, text, pad)); }
    case Bar(row, col, width, permille) => if known { PutsKeepSync(y, BarPuts(row, col, width, permille)); }
    case ClearRow(row) => if known { PutsKeepSync(y, ClearPuts(row)); }
    case Flush(drawing) =>
      if known && drawing {
        FlushSyncs(y);
      } else if known && MarkCount(y.screen.marks) == 0 {
        IdleFlushKeepsSync(y);
      }
  }

  lemma {:induction false} RunKeepsTrack(y: System, known: bool, ops: seq<Op>)
    requires Valid(y.screen) && (known ==> InSync(y)) && Tracked(y.screen, known, ops)
    ensures InSync(Run(y, ops))
    decreases |ops|
  {
    hide InSync, Applied, Tracks;
    if ops != [] {
      NextKeepsTrack(y, known, ops[0]);
      RunKeepsTrack(Next(y, ops[0]), Tracks(y.screen, known, ops[0]), ops[1..]);
    }
  }

  lemma {:induction false} RunAppend(y: System, ops: seq<Op>, op: Op)
    requires Valid(y.screen)
    ensures Run(y, ops + [op]) == Next(Run(y, ops), op)
    decreases |ops|
  {
    if ops == [] {
      assert ([] + [op])[1..] == [];
      assert ops + [op] == [op];
      assert Run(Next(y, op), []) == Next(y, op);
    } else {
      assert (ops + [op])[1..] == ops[1..] + [op];
      RunAppend(Next(y, ops[0]), ops[1..], op);
    }
  }

  /**
    Incremental redraw equals full redraw. Initialise the screen, with any garbage on the panel, then do
    anything: unless the last marks dropped by a silent flush have not been set again since, every cell
    without a mark is up to date on the panel, and after the next flush the panel is the model, cell by
    cell. In any case no mark is ever set at column 30 or above.
   */
  lemma IncrementalIsFullRedraw(panel: Panel, fg: uint16, bg: uint16, ops: seq<Op>)
    ensures var y := System(Initial(fg, bg), panel);
      && Valid(y.screen)
      && var z := Run(y, ops);
      && (forall r, c :: 0 <= r < ROWS && COLS <= c ==> !HasBit(z.screen.marks[r], c))
      && (Tracked(y.screen, true, ops) ==>
            && InSync(z)
            && Identical(Next(z, Flush(true)))
            && Run(y, ops + [Flush(true)]) == Next(z, Flush(true)))
  {
    var y := System(Initial(fg, bg), panel);
    assert InSync(y);
    var z := Run(y, ops);
    forall r, c | 0 <= r < ROWS && COLS <= c
      ensures !HasBit(z.screen.marks[r], c)
    {
      HighBitsClear(z.screen.marks[r], COLS, c);
    }
    if Tracked(y.screen, true, ops) {
      hide InSync, Initial, HasBit;
      RunKeepsTrack(y, true, ops);
      FlushSyncs(z);
      RunAppend(y, ops, Flush(true));
    }
  }

  /** A silent flush keeps every panel in step that was in step exactly when the dirty count is zero. */
  lemma SilentFlushSyncsExactlyWhen(s: Screen)
    requires Valid(s)
    ensures (forall panel :: InSync(System(s, panel)) ==> InSync(Next(System(s, panel), Flush(false))))
       <==> MarkCount(s.marks) == 0
  {
    hide IsDirty;
    if MarkCount(s.marks) == 0 {
      forall panel | InSync(System(s, panel))
        ensures InSync(Next(System(s, panel), Flush(false)))
      {
        IdleFlushKeepsSync(System(s, panel));
      }
    } else {
      var panel := SilentFlushLoses(s);
    }
  }

  /** The panel that lacks just the first dirty cell is in step before a silent flush and not after it. */
  lemma SilentFlushLoses(s: Screen) returns (panel: Panel)
    requires Valid(s) && MarkCount(s.marks) != 0
    ensures InSync(System(s, panel)) && !InSync(Next(System(s, panel), Flush(false)))
  {
    hide IsDirty;
    FlushIsExact(s);
    var p := FlushDraws(s, ROWS)[0].at;
    DirtyIsOnGrid(s, p);
    panel := s.cells - {p};
    var z := Next(System(s, panel), Flush(false));
    NothingIsDirty(s, p);
    assert p !in z.panel;
  }

  lemma NothingIsDirty(s: Screen, p: Pos)
    requires Valid(s)
    ensures !IsDirty(Flushed(s), p)
  {
  }

  lemma RunTwo(y: System, first: Op, second: Op)
    requires Valid(y.screen)
    ensures Run(y, [first]) == Next(y, first)
    ensures Run(y, [first, second]) == Next(Next(y, first), second)
  {
    hide Next;
    assert [first][1..] == [] && [first, second] == [first] + [second];
    assert Run(Next(y, first), []) == Next(y, first);
    RunAppend(y, [first], second);
  }

  /** Without marks a flush draws nothing. */
  lemma NothingDrawn(y: System)
    requires Valid(y.screen) && MarkCount(y.screen.marks) == 0
    ensures Next(y, Flush(true)).panel == y.panel
  {
    hide MarkCount, FlushDraws, Flushed, IsDirty, Ordered, Drawn;
    FlushIsExact(y.screen);
  }

  lemma SilentFlushClears(y: System)
    requires Valid(y.screen)
    ensures var z := Next(y, Flush(false)); z.panel == y.panel && MarkCount(z.screen.marks) == 0
  {
    hide MarkCount, FlushDraws, Flushed, IsDirty, Ordered, Drawn;
    FlushIsExact(y.screen);
  }

  /** So a silent flush right after init leaves an empty panel empty, and the next flush does not repair it. */
  lemma SilentFlushAfterInitIsLost(fg: uint16, bg: uint16, panel: Panel)
    requires panel == map[]
    ensures var y := System(Initial(fg, bg), panel);
      && Valid(y.screen)
      && !InSync(Run(y, [Flush(false)]))
      && Run(y, [Flush(false), Flush(true)]).panel == panel
  {
    var y := System(Initial(fg, bg), panel);
    var z := Next(y, Flush(false));
    NothingIsDirty(y.screen, Pos(0, 0));
    assert z.screen == Flushed(y.screen) && OnGrid(Pos(0, 0));
    hide IsDirty, Initial, Run, Flushed, Next, MarkCount;
    RunTwo(y, Flush(false), Flush(true));
    SilentFlushClears(y);
    NothingDrawn(z);
  }

  // ---- what the operations write ---------------------------------------------------------

  /** Character k of a text is shown: there is one, within thirty and before any NUL. */
  predicate IsShown(text: string, k: int) {
    0 <= k < |text| && k < COLS && forall i :: 0 <= i <= k ==> text[i] != '\0'
  }

  lemma ShownIs(text: string, k: int)
    ensures 0 <= k < |Shown(text)| <==> IsShown(text, k)
    ensures IsShown(text, k) ==> Shown(text)[k] == text[k]
  {
    hide BeforeNul;
    var t, cut := Shown(text), text[..Min(|text|, COLS)];
    assert t <= cut && (t != cut ==> cut[|t|] == '\0');
    assert forall i :: 0 <= i < |t| ==> t[i] == text[i];
  }

  /**
    Text appears from its column on, up to a NUL and cut at the edge, in the colours in force; with
    padding the rest of the row is blank. Nothing else changes.
   */
  lemma PrintShows(s: Screen, row: uint8, col: uint8, text: string, pad: bool, p: Pos)
    requires Valid(s) && OnGrid(p)
    ensures var t, k := Applied(s, Print(row, col, text, pad)), p.col - col as int;
      t.cells[p] ==
        if p.row == row as nat && IsShown(text, k) then Cell(text[k], s.fg, s.bg)
        else if pad && p.row == row as nat && k >= 0 then Cell(' ', s.fg, s.bg)
        else s.cells[p]
  {
    hide Shown, Puts, LastPut, IsDirty, Valid, IsShown;
    var ps := PrintPuts(row, col, text, pad);
    PutsAt(s, ps, p);
    LastPutIs(ps, p);
    var k := p.col - col as int;
    ShownIs(text, k);
    if p.row == row as nat && 0 <= k < |ps| {
      assert ps[k].row == p.row && ps[k].col == p.col;
    }
  }

  /** A cleared row is blank in the colours in force, and nothing else changes. */
  lemma ClearShows(s: Screen, row: uint8, p: Pos)
    requires Valid(s) && OnGrid(p)
    ensures Applied(s, ClearRow(row)).cells[p] == if p.row == row as nat then Cell(' ', s.fg, s.bg) else s.cells[p]
  {
    hide Puts, LastPut, IsDirty, Valid;
    var ps := ClearPuts(row);
    PutsAt(s, ps, p);
    LastPutIs(ps, p);
    if p.row == row as nat {
      assert ps[p.col].row == p.row && ps[p.col].col == p.col;
    }
  }

  /** A fresh screen is blank in the colours given, with every cell marked. */
  lemma InitShows(s: Screen, fg: uint16, bg: uint16, p: Pos)
    requires Valid(s) && OnGrid(p)
    ensures var t := Applied(s, Init(fg, bg));
      t.cells[p] == Cell(' ', fg, bg) && t.fg == fg && t.bg == bg && IsDirty(t, p)
  {
    hide HasBit, Pow2;
    FullRow();
  }

  /** Changing the colours and flushing change no cell; a flush leaves no mark. */
  lemma ColorsAndFlushShow(s: Screen, fg: uint16, bg: uint16, drawing: bool, p: Pos)
    requires Valid(s)
    ensures var t := Applied(s, SetColors(fg, bg));
      t.cells == s.cells && t.fg == fg && t.bg == bg && t.marks == s.marks
    ensures var t := Applied(s, Flush(drawing));
      t.cells == s.cells && t.fg == s.fg && t.bg == s.bg && !IsDirty(t, p)
  {
    NothingIsDirty(s, p);
  }

  /** Marking everything changes no cell and marks them all. */
  lemma MarkAllShows(s: Screen, p: Pos)
    requires Valid(s) && OnGrid(p)
    ensures var t := Applied(s, MarkAllDirty);
      t.cells == s.cells && t.fg == s.fg && t.bg == s.bg && IsDirty(t, p)
  {
    hide HasBit, Pow2;
    FullRow();
  }

  /**
    The column of a bar is 8 bits wide, so column c is written as number i = (c - col) mod 256 of the bar
    if the bar is that wide, and by no other. Number i is filled if half of it or more is covered by
    width * permille thousandths, permille cut at 1000.
   */
  lemma BarShows(s: Screen, row: uint8, col: uint8, width: uint8, permille: uint16, p: Pos)
    requires Valid(s) && OnGrid(p)
    ensures var t, i := Applied(s, Bar(row, col, width, permille)), (p.col - col) % 256;
      t.cells[p] ==
        if p.row == row as nat && i < width then
          Cell(if 1000 * i + 500 <= width * Min(permille, 1000) then '#' else '.', s.fg, s.bg)
        else s.cells[p]
  {
    hide Puts, BarFill, LastPut, BarColumn, IsDirty, Valid;
    var ps := BarPuts(row, col, width, permille);
    var i, k := (p.col - col) % 256, LastPut(ps, p);
    PutsAt(s, ps, p);
    LastPutIs(ps, p);
    BarColumnIs(col, p.col, i);
    BarFillIs(width, permille, i);
    if p.row == row as nat && i < width {
      assert ps[i].row == p.row && ps[i].col == p.col;
    }
    if k >= 0 {
      BarColumnIs(col, p.col, k);
      assert ps[k] == Put(row, BarColumn(col, k), if k < BarFill(width, permille) then '#' else '.');
    }
  }

  /** The number of filled characters is the nearest to width * permille / 1000, and at most width. */
  lemma BarFillIs(width: uint8, permille: uint16, i: nat)
    ensures var n, x := BarFill(width, permille), width * Min(permille, 1000);
      && 1000 * n - 500 <= x < 1000 * n + 500 && n <= width
      && (i < n <==> 1000 * i + 500 <= x)
  {
    var q := Min(permille, 1000);
    MulMonotone(0, q, width);
    MulMonotone(q, 1000, width);
    assert q * width == width * q;
    DivParts(width * q + 500, 1000);
  }

  /** Among the numbers below 256 only one brings the 8-bit column to c. */
  lemma BarColumnIs(col: uint8, c: nat, k: nat)
    requires c < 256 && k < 256
    ensures BarColumn(col, k) as nat == c <==> k == (c - col) % 256
  {
    assert (c - col) % 256 == if c >= col then c - col else c - col + 256;
    assert (col + k) % 256 == if col + k < 256 then col + k else col + k - 256;
  }

  /** A bar stays within columns col .. col + width - 1, as documented, exactly when those do not wrap. */
  lemma BarStaysInPlaceExactlyWhen(row: uint8, col: uint8, width: uint8, permille: uint16)
    ensures (forall i :: 0 <= i < width ==> BarPuts(row, col, width, permille)[i].col >= col)
       <==> col + width <= 256
  {
    var ps := BarPuts(row, col, width, permille);
    if col + width > 256 {
      assert ps[256 - col].col == 0;
    }
  }

  /** Repeating any of the drawing operations changes nothing and marks nothing. */
  lemma RepeatingIsFree(s: Screen, op: Op)
    requires Valid(s) && (op.Print? || op.Bar? || op.ClearRow?)
    ensures Applied(Applied(s, op), op) == Applied(s, op)
  {
    var ps := match op
      case Print(row, col, text, pad) => PrintPuts(row, col, text, pad)
      case Bar(row, col, width, permille) => BarPuts(row, col, width, permille)
      case ClearRow(row) => ClearPuts(row)
      case _ => [];
    assert Distinct(ps) by {
      if op.Print? {
        PrintDistinct(op.row, op.col, op.text, op.pad);
      } else if op.Bar? {
        BarDistinct(op.row, op.col, op.width, op.permille);
      }
    }
    RewritingIsFree(s, ps, |ps|);
    assert ps[..|ps|] == ps;
  }

  lemma PrintDistinct(row: uint8, col: uint8, text: string, pad: bool)
    ensures Distinct(PrintPuts(row, col, text, pad))
  {
    hide Shown;
    var ps := PrintPuts(row, col, text, pad);
    assert forall i :: 0 <= i < |ps| ==> ps[i].col == col as nat + i;
  }

  lemma BarDistinct(row: uint8, col: uint8, width: uint8, permille: uint16)
    ensures Distinct(BarPuts(row, col, width, permille))
  {
    hide BarFill, BarColumn;
    var ps := BarPuts(row, col, width, permille);
    forall i, k | 0 <= i < k < |ps|
      ensures ps[i].col != ps[k].col
    {
      assert ps[i].col == BarColumn(col, i) as nat && ps[k].col == BarColumn(col, k) as nat;
      BarColumnIs(col, ps[i].col, i);
      BarColumnIs(col, ps[i].col, k);
    }
  }

  // ---- what a flush draws ----------------------------------------------------------------

  /**
    A flush calls back once for each dirty cell, in strictly increasing order of row and column, with
    the contents of the cell; it makes as many calls as the dirty count says, and clears every mark.
   */
  lemma FlushIsExact(s: Screen)
    requires Valid(s)
    ensures var ds := FlushDraws(s, ROWS);
      && |ds| == MarkCount(s.marks)
      && Ordered(ds)
      && (forall i :: 0 <= i < |ds| ==> IsDirty(s, ds[i].at) && ds[i].cell == s.cells[ds[i].at])
      && (forall p :: IsDirty(s, p) ==> Drawn(ds, p))
      && MarkCount(Flushed(s).marks) == 0
  {
    hide IsDirty;
    FlushDrawsExact(s, ROWS);
    assert s.marks[..ROWS] == s.marks;
    forall p | IsDirty(s, p)
      ensures Drawn(FlushDraws(s, ROWS), p)
    {
      DirtyIsOnGrid(s, p);
    }
    NoMarks(Flushed(s).marks);
  }

  lemma DirtyIsOnGrid(s: Screen, p: Pos)
    requires Valid(s) && IsDirty(s, p)
    ensures OnGrid(p)
  {
  }

  lemma {:induction false} NoMarks(marks: seq<uint32>)
    requires forall i :: 0 <= i < |marks| ==> marks[i] == 0
    ensures MarkCount(marks) == 0
  {
    if marks != [] {
      NoMarks(marks[..|marks| - 1]);
    }
  }
}
