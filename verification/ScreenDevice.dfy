/** The screen as the firmware keeps it: three grids and one word of change marks per row, written in place. */
module ScreenDevice {
  import opened Bits
  import opened CIntegers
  import opened ScreenModel

  class TextScreen {
    const ch: array2<char>
    const fg: array2<uint16>
    const bg: array2<uint16>
    const dirty: array<uint32>
    var curFg: uint16
    var curBg: uint16

    ghost predicate Shape()
      reads this
    {
      && ch.Length0 == ROWS && ch.Length1 == COLS
      && fg.Length0 == ROWS && fg.Length1 == COLS
      && bg.Length0 == ROWS && bg.Length1 == COLS
      && dirty.Length == ROWS && fg != bg
    }

    ghost predicate Ok()
      reads this, ch, fg, bg, dirty
    {
      Shape() && Valid(View())
    }

    ghost function View(): Screen
      requires Shape()
      reads this, ch, fg, bg, dirty
    {
      Screen(map p | p in Grid() :: Cell(ch[p.row, p.col], fg[p.row, p.col], bg[p.row, p.col]),
             dirty[..], curFg, curBg)
    }

    constructor (fgInit: uint16, bgInit: uint16)
      ensures Ok() && fresh(ch) && fresh(fg) && fresh(bg) && fresh(dirty)
      ensures View() == Initial(fgInit, bgInit)
    {
      ch := new char[ROWS, COLS];
      fg := new uint16[ROWS, COLS];
      bg := new uint16[ROWS, COLS];
      dirty := new uint32[ROWS];
      new;
      Init(fgInit, bgInit);
    }

    /** rjs_ts_init: the screen is cleared in place, whatever it held. */
    method Init(fgInit: uint16, bgInit: uint16)
      requires Shape()
      modifies this, ch, fg, bg, dirty
      ensures Ok() && View() == Initial(fgInit, bgInit)
    {
      hide HasBit, Pow2, Valid;
      curFg := fgInit;
      curBg := bgInit;
      var r := 0;
      while r < ROWS
        modifies ch, fg, bg
        invariant 0 <= r <= ROWS
        invariant forall i, k :: 0 <= i < r && 0 <= k < COLS ==>
          ch[i, k] == ' ' && fg[i, k] == fgInit && bg[i, k] == bgInit
      {
        var c := 0;
        while c < COLS
          modifies ch, fg, bg
          invariant 0 <= c <= COLS
          invariant forall i, k :: 0 <= i < r && 0 <= k < COLS ==>
            ch[i, k] == ' ' && fg[i, k] == fgInit && bg[i, k] == bgInit
          invariant forall k :: 0 <= k < c ==> ch[r, k] == ' ' && fg[r, k] == fgInit && bg[r, k] == bgInit
        {
          ch[r, c] := ' ';
          fg[r, c] := fgInit;
          bg[r, c] := bgInit;
          c := c + 1;
        }
        r := r + 1;
      }
      assert View().cells == Initial(fgInit, bgInit).cells;
      MarkRows();
      assert View().cells == Initial(fgInit, bgInit).cells;
      assert View().marks == Initial(fgInit, bgInit).marks;
    }

    /** The loop of rjs_ts_mark_all_dirty. */
    method MarkRows()
      requires Shape()
      modifies dirty
      ensures dirty[..] == seq(ROWS, _ => FULL_ROW)
    {
      var r := 0;
      while r < ROWS
        invariant 0 <= r <= ROWS
        invariant forall k :: 0 <= k < r ==> dirty[k] == FULL_ROW
      {
        dirty[r] := FULL_ROW;
        r := r + 1;
      }
    }

    method MarkAllDirty()
      requires Ok()
      modifies dirty
      ensures Ok() && View() == MarkedAll(old(View()))
    {
      hide HasBit, Pow2;
      ghost var was := View();
      MarkRows();
      assert View().cells == was.cells;
      assert View() == MarkedAll(was);
    }

    method PutCharacter(row: uint8, col: uint8, c: char)
      requires Ok()
      modifies ch, fg, bg, dirty
      ensures Ok() && View() == PutChar(old(View()), row, col, c)
    {
      if row as nat >= ROWS || col as nat >= COLS {
        return;
      }
      ghost var was := View();
      assert was.cells[Pos(row, col)] == Cell(ch[row, col], fg[row, col], bg[row, col]);
      if ch[row, col] == c && fg[row, col] == curFg && bg[row, col] == curBg {
        return;
      }
      hide HasBit, Or, Pow2, Valid;
      MarkBelow(was, row as nat, col as nat);
      Store(row, col, c);
      dirty[row] := Or(dirty[row], Pow2(col as nat));
      assert View().cells == was.cells[Pos(row, col) := Cell(c, curFg, curBg)];
      assert View().marks == PutChar(was, row, col, c).marks;
    }

    /** The three assignments to the grids. */
    method Store(row: uint8, col: uint8, c: char)
      requires Shape() && OnGrid(Pos(row, col))
      modifies ch, fg, bg
      ensures View() == old(View()).(cells := old(View()).cells[Pos(row, col) := Cell(c, curFg, curBg)])
    {
      ghost var was := View().cells;
      ch[row, col] := c;
      fg[row, col] := curFg;
      bg[row, col] := curBg;
      assert View().cells == was[Pos(row, col) := Cell(c, curFg, curBg)];
    }

    method SetColors(fgNew: uint16, bgNew: uint16)
      requires Ok()
      modifies this
      ensures Ok() && View() == old(View()).(fg := fgNew, bg := bgNew)
    {
      curFg, curBg := fgNew, bgNew;
    }

    /** rjs_ts_print and rjs_ts_print_line: formatted is the text that formatting gave, if it did not fail. */
    method Print(row: uint8, col: uint8, formatted: Option<string>, pad: bool)
      requires Ok()
      modifies ch, fg, bg, dirty
      ensures Ok()
      ensures View() == match formatted
                        case None => old(View())
                        case Some(text) => Puts(old(View()), PrintPuts(row, col, text, pad))
    {
      hide View, Valid, Puts, PutChar, PrintPuts;
      if formatted.None? {
        return;
      }
      var text := formatted.value;
      ghost var was := View();
      ghost var ps := PrintPuts(row, col, text, pad);
      ghost var n := Room(col, Shown(text));
      var buf := text[..Min(|text|, COLS)];
      var i := 0;
      var c := col;
      PrintLength(row, col, text, pad);
      WriteNone(was, ps);
      while i < |buf| && buf[i] != '\0' && c as nat < COLS
        invariant 0 <= i <= n && c as nat == col as nat + i
        invariant Ok() && View() == Puts(was, ps[..i])
      {
        PrintPutAt(row, col, text, pad, i);
        WriteNext(was, ps, i);
        PutCharacter(row, c, buf[i]);
        i := i + 1;
        c := c + 1;
      }
      RoomIs(col, text, i);
      if pad {
        while c as nat < COLS
          invariant col as nat + n <= c as nat && c as nat <= Max(COLS, col as nat)
          invariant Ok() && View() == Puts(was, ps[..c as nat - col as nat])
        {
          PadPutAt(row, col, text, c as nat);
          WriteNext(was, ps, c as nat - col as nat);
          PutCharacter(row, c, ' ');
          c := c + 1;
        }
      }
      assert ps[..|ps|] == ps;
    }

    method Bar(row: uint8, col: uint8, width: uint8, permilleGiven: uint16)
      requires Ok()
      modifies ch, fg, bg, dirty
      ensures Ok() && View() == Puts(old(View()), BarPuts(row, col, width, permilleGiven))
    {
      hide View, Valid, Puts, PutChar;
      ghost var was := View();
      ghost var ps := BarPuts(row, col, width, permilleGiven);
      var permille := permilleGiven;
      if permille > 1000 {
        permille := 1000;
      }
      MulMonotone(0, permille, width);
      var filled := (width * permille + 500) / 1000;
      assert filled == BarFill(width, permilleGiven);
      hide BarFill;
      var i: uint8 := 0;
      WriteNone(was, ps);
      while i < width
        invariant i <= width
        invariant Ok() && View() == Puts(was, ps[..i])
      {
        WriteNext(was, ps, i as nat);
        PutCharacter(row, (col + i) % 256, if i as nat < filled then '#' else '.');
        i := i + 1;
      }
      assert ps[..width] == ps;
    }

    method ClearRow(row: uint8)
      requires Ok()
      modifies ch, fg, bg, dirty
      ensures Ok() && View() == Puts(old(View()), ClearPuts(row))
    {
      hide View, Valid, Puts, PutChar;
      ghost var was := View();
      ghost var ps := ClearPuts(row);
      var c: uint8 := 0;
      WriteNone(was, ps);
      while c as nat < COLS
        invariant c as nat <= COLS
        invariant Ok() && View() == Puts(was, ps[..c])
      {
        WriteNext(was, ps, c as nat);
        PutCharacter(row, c, ' ');
        c := c + 1;
      }
      assert ps[..COLS] == ps;
    }

    /** The callbacks, if there is anyone to call, are recorded in the order they are made. */
    method Flush(hasCallback: bool) returns (drawn: uint16, ghost calls: seq<Draw>)
      requires Ok()
      modifies dirty
      ensures Ok() && View() == Flushed(old(View()))
      ensures drawn as nat == |FlushDraws(old(View()), ROWS)|
      ensures calls == if hasCallback then FlushDraws(old(View()), ROWS) else []
    {
      hide HasBit, And, Ctz, Pow2, PopCount, RowDraws, MarkedColumns;
      ghost var was := View();
      drawn := 0;
      calls := [];
      ghost var passed: seq<Draw> := [];
      var r := 0;
      while r < ROWS
        invariant 0 <= r <= ROWS
        invariant forall k :: 0 <= k < r ==> dirty[k] == 0
        invariant forall k :: r <= k < ROWS ==> dirty[k] == was.marks[k]
        invariant passed == FlushDraws(was, r) && drawn as nat == |passed| <= COLS * r
        invariant calls == if hasCallback then passed else []
      {
        var bits: nat := dirty[r];
        dirty[r] := 0;
        ghost var before, row, taken := passed, RowDraws(was, r), 0;
        RowIsShort(was, r);
        assert passed == before + row[..taken];
        while bits != 0
          modifies {}
          invariant 0 <= taken <= |row| <= COLS && bits < TWO_32
          invariant MarkedColumns(bits) == MarkedColumns(was.marks[r])[taken..]
          invariant passed == before + row[..taken] && drawn as nat == |passed|
          invariant calls == if hasCallback then passed else []
          decreases bits
        {
          TakeMark(was, r, bits, taken);
          var c := Ctz(bits);
          bits := And(bits, bits - 1);
          if hasCallback {
            calls := calls + [Draw(Pos(r, c), Cell(ch[r, c], fg[r, c], bg[r, c]))];
          }
          passed := passed + [Draw(Pos(r, c), was.cells[Pos(r, c)])];
          drawn := drawn + 1;
          assert row[..taken + 1] == row[..taken] + [row[taken]];
          taken := taken + 1;
        }
        NoneLeft(was, r, taken);
        assert row[..taken] == row;
        r := r + 1;
      }
      assert dirty[..] == Flushed(was).marks;
      assert View().cells == was.cells;
    }

    method DirtyCount() returns (n: uint16)
      requires Ok()
      ensures n as nat == MarkCount(View().marks)
    {
      hide PopCount;
      n := 0;
      var r := 0;
      while r < ROWS
        invariant 0 <= r <= ROWS
        invariant n as nat == MarkCount(dirty[..r]) <= COLS * r
      {
        assert dirty[..r + 1][..r] == dirty[..r];
        PopIsShort(View(), r);
        n := n + PopCount(dirty[r]);
        r := r + 1;
      }
      assert dirty[..ROWS] == dirty[..];
    }
  }

  // ---- steps of the loops ----------------------------------------------------------------

  lemma WriteNext(s: Screen, ps: seq<Put>, i: nat)
    requires Valid(s) && i < |ps|
    ensures Puts(s, ps[..i + 1]) == PutChar(Puts(s, ps[..i]), ps[i].row, ps[i].col, ps[i].ch)
  {
    assert ps[..i + 1][..i] == ps[..i];
  }

  lemma WriteNone(s: Screen, ps: seq<Put>)
    requires Valid(s)
    ensures Puts(s, ps[..0]) == s
  {
  }

  lemma MarkBelow(s: Screen, row: nat, col: nat)
    requires Valid(s) && row < ROWS && col < COLS
    ensures Or(s.marks[row], Pow2(col)) < TWO_32
  {
    MarkFits(s.marks[row], col);
  }

  lemma PrintLength(row: uint8, col: uint8, text: string, pad: bool)
    ensures |PrintPuts(row, col, text, pad)|
         == if pad then Max(COLS, col as nat) - col as nat else Room(col, Shown(text))
    ensures Room(col, Shown(text)) <= Max(COLS, col as nat) - col as nat
  {
  }

  /** Scanning for the NUL: as long as none is met, the character is one of the shown ones. */
  lemma {:induction false} NextShown(buf: string, i: nat)
    requires i <= |BeforeNul(buf)| && i < |buf| && buf[i] != '\0'
    ensures i < |BeforeNul(buf)| && BeforeNul(buf)[i] == buf[i]
  {
  }

  lemma PrintPutAt(row: uint8, col: uint8, text: string, pad: bool, i: nat)
    requires var buf := text[..Min(|text|, COLS)];
      i <= Room(col, Shown(text)) && i < |buf| && buf[i] != '\0' && col as nat + i < COLS
    ensures i < Room(col, Shown(text))
    ensures |PrintPuts(row, col, text, pad)| > i
    ensures PrintPuts(row, col, text, pad)[i] == Put(row, col as nat + i, text[..Min(|text|, COLS)][i])
  {
    NextShown(text[..Min(|text|, COLS)], i);
  }

  lemma PadPutAt(row: uint8, col: uint8, text: string, c: nat)
    requires col as nat + Room(col, Shown(text)) <= c < COLS
    ensures c - col as nat < |PrintPuts(row, col, text, true)|
    ensures PrintPuts(row, col, text, true)[c - col as nat] == Put(row, c, ' ')
  {
  }

  /** The scan stops at the NUL, at the end of the text or at the edge of the screen. */
  lemma RoomIs(col: uint8, text: string, i: nat)
    requires var buf := text[..Min(|text|, COLS)];
      i <= Room(col, Shown(text)) && (i >= |buf| || buf[i] == '\0' || col as nat + i >= COLS)
    ensures i == Room(col, Shown(text))
  {
  }

  lemma RowIsShort(s: Screen, row: nat)
    requires Valid(s) && row < ROWS
    ensures |RowDraws(s, row)| == |MarkedColumns(s.marks[row])| <= COLS
  {
    MarkedColumnsExact(s.marks[row]);
    PopBelow(s.marks[row], COLS);
  }

  lemma {:induction false} PopBelow(x: nat, n: nat)
    requires x < Pow2(n)
    ensures PopCount(x) <= n
  {
    if x > 0 {
      PopBelow(x / 2, n - 1);
    }
  }

  lemma PopIsShort(s: Screen, row: nat)
    requires Valid(s) && row < ROWS
    ensures PopCount(s.marks[row]) <= COLS
  {
    PopBelow(s.marks[row], COLS);
  }

  lemma TakeMark(s: Screen, row: nat, bits: nat, taken: nat)
    requires Valid(s) && row < ROWS && bits != 0
    requires taken <= |MarkedColumns(s.marks[row])| && MarkedColumns(bits) == MarkedColumns(s.marks[row])[taken..]
    ensures And(bits, bits - 1) < bits
    ensures taken < |MarkedColumns(s.marks[row])| && Ctz(bits) == MarkedColumns(s.marks[row])[taken] < COLS
    ensures MarkedColumns(And(bits, bits - 1)) == MarkedColumns(s.marks[row])[taken + 1..]
    ensures |RowDraws(s, row)| == |MarkedColumns(s.marks[row])|
    ensures Pos(row, Ctz(bits)) in s.cells
    ensures RowDraws(s, row)[taken] == Draw(Pos(row, Ctz(bits)), s.cells[Pos(row, Ctz(bits))])
  {
    hide And, Ctz, HasBit;
    ClearLowest(bits);
    ColumnsOnGrid(s, row);
    var cs := MarkedColumns(s.marks[row]);
    assert MarkedColumns(bits)[0] == cs[taken..][0] == cs[taken];
    assert MarkedColumns(bits)[1..] == cs[taken + 1..];
  }

  lemma NoneLeft(s: Screen, row: nat, taken: nat)
    requires Valid(s) && row < ROWS
    requires taken <= |MarkedColumns(s.marks[row])| && MarkedColumns(0) == MarkedColumns(s.marks[row])[taken..]
    ensures taken == |RowDraws(s, row)|
  {
    assert MarkedColumns(0) == [];
  }
}
