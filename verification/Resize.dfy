/** vc_resize (drivers/char/vt.c:1072-1164): the screen, wherever it lies, is copied into a buffer of
    the new size; if it is on display it then goes back to video memory (drivers/char/vt.c:213-230,
    498-509, 581-606; drivers/video/console/vgacon.c:498-507, 985-994).  Sizes are in words. */
module Resize {
  import opened Common
  import opened Screen

  const MAX_SIDE: nat := 32767
  const EINVAL: int := 22
  const ENOMEM: int := 12

  /** Row y of s, cut to the new width or padded with the erase character. */
  function Fitted(s: seq<int>, oldCols: nat, newCols: nat, y: nat, erase: int): (r: seq<int>)
    requires y * oldCols + oldCols <= |s|
    ensures |r| == newCols
  {
    var w := Min(oldCols, newCols);
    s[y * oldCols..y * oldCols + w] + Blank(newCols - w, erase)
  }

  /** n rows of s from row `from` on, fitted to the new width. */
  function FittedRows(s: seq<int>, oldCols: nat, newCols: nat, from: nat, n: nat, erase: int): (r: seq<int>)
    requires (from + n) * oldCols <= |s|
  {
    if n == 0 then []
    else
      MulLe(from + n - 1, from + n, oldCols);
      MulAdd(from + n - 1, 1, oldCols);
      FittedRows(s, oldCols, newCols, from, n - 1, erase) + Fitted(s, oldCols, newCols, from + n - 1, erase)
  }

  lemma {:induction false} FittedRowsLength(s: seq<int>, oldCols: nat, newCols: nat, from: nat, n: nat, erase: int)
    requires (from + n) * oldCols <= |s|
    ensures |FittedRows(s, oldCols, newCols, from, n, erase)| == n * newCols
  {
    if n > 0 {
      MulLe(from + n - 1, from + n, oldCols);
      FittedRowsLength(s, oldCols, newCols, from, n - 1, erase);
      MulAdd(n - 1, 1, newCols);
    }
  }

  /** The new screen: the bottom min(old, new) rows in order, then blank rows. */
  function Resized(s: seq<int>, oldRows: nat, oldCols: nat, newRows: nat, newCols: nat, erase: int): (r: seq<int>)
    requires |s| == oldRows * oldCols
  {
    var n := Min(oldRows, newRows);
    FittedRows(s, oldCols, newCols, oldRows - n, n, erase) + Blank((newRows - n) * newCols, erase)
  }

  lemma {:induction false} FittedRowsCell(s: seq<int>, oldCols: nat, newCols: nat, from: nat, n: nat, erase: int, y: nat, x: nat)
    requires (from + n) * oldCols <= |s| && y < n && x < newCols
    ensures |FittedRows(s, oldCols, newCols, from, n, erase)| == n * newCols && 0 <= y * newCols + x < n * newCols
    ensures x < oldCols ==> 0 <= (from + y) * oldCols + x < |s|
    ensures FittedRows(s, oldCols, newCols, from, n, erase)[y * newCols + x]
            == if x < oldCols then s[(from + y) * oldCols + x] else erase
  {
    hide FittedRows, Fitted;
    FittedRowsLength(s, oldCols, newCols, from, n, erase);
    CellInRange(y, x, n, newCols);
    if x < oldCols {
      CellInRange(from + y, x, from + n, oldCols);
    }
    FittedRowsLast(s, oldCols, newCols, from, n, erase);
    var a := FittedRows(s, oldCols, newCols, from, n - 1, erase);
    if y < n - 1 {
      FittedRowsCell(s, oldCols, newCols, from, n - 1, erase, y, x);
    } else {
      FittedCell(s, oldCols, newCols, from + y, erase, x);
    }
  }

  lemma FittedRowsLast(s: seq<int>, oldCols: nat, newCols: nat, from: nat, n: nat, erase: int)
    requires 0 < n && (from + n) * oldCols <= |s|
    ensures (from + n - 1) * oldCols <= |s| && (from + n - 1) * oldCols + oldCols <= |s|
    ensures |FittedRows(s, oldCols, newCols, from, n - 1, erase)| == (n - 1) * newCols
    ensures FittedRows(s, oldCols, newCols, from, n, erase)
            == FittedRows(s, oldCols, newCols, from, n - 1, erase) + Fitted(s, oldCols, newCols, from + n - 1, erase)
  {
    MulLe(from + n - 1, from + n, oldCols);
    MulAdd(from + n - 1, 1, oldCols);
    FittedRowsLength(s, oldCols, newCols, from, n - 1, erase);
  }

  lemma FittedCell(s: seq<int>, oldCols: nat, newCols: nat, y: nat, erase: int, x: nat)
    requires y * oldCols + oldCols <= |s| && x < newCols
    ensures x < oldCols ==> 0 <= y * oldCols + x < |s|
    ensures Fitted(s, oldCols, newCols, y, erase)[x] == if x < oldCols then s[y * oldCols + x] else erase
  {
    MulLe(0, y, oldCols);
  }

  /** Cell by cell: the bottom rows keep their place relative to each other, columns are cut or
      padded on the right, rows below are erased. */
  lemma ResizedCell(s: seq<int>, oldRows: nat, oldCols: nat, newRows: nat, newCols: nat, erase: int, y: nat, x: nat)
    requires |s| == oldRows * oldCols && y < newRows && x < newCols
    ensures var n := Min(oldRows, newRows);
            && |Resized(s, oldRows, oldCols, newRows, newCols, erase)| == newRows * newCols
            && 0 <= y * newCols + x < newRows * newCols
            && (y < n && x < oldCols ==> 0 <= (oldRows - n + y) * oldCols + x < |s|)
            && Cell(Resized(s, oldRows, oldCols, newRows, newCols, erase), newCols, y, x)
               == if y < n && x < oldCols then Cell(s, oldCols, oldRows - n + y, x) else erase
  {
    hide FittedRows;
    var n := Min(oldRows, newRows);
    FittedRowsLength(s, oldCols, newCols, oldRows - n, n, erase);
    MulAdd(n, newRows - n, newCols);
    CellInRange(y, x, newRows, newCols);
    if y < n {
      FittedRowsCell(s, oldCols, newCols, oldRows - n, n, erase, y, x);
    } else {
      MulLe(n, y, newCols);
    }
  }

  /** A word of the old screen that is copied with it makes no difference exactly if it is the same or its
      cell is cut off.  Such is the soft cursor of a console on display: it is drawn while the screen is
      copied. */
  lemma CursorCopiedIff(s: seq<int>, oldRows: nat, oldCols: nat, newRows: nat, newCols: nat, erase: int, y: nat, x: nat, w: int)
    requires |s| == oldRows * oldCols && y < oldRows && x < oldCols
    ensures 0 <= y * oldCols + x < |s|
    ensures Resized(s[y * oldCols + x := w], oldRows, oldCols, newRows, newCols, erase)
            == Resized(s, oldRows, oldCols, newRows, newCols, erase)
            <==> w == Cell(s, oldCols, y, x) || x >= newCols || y < oldRows - Min(oldRows, newRows)
  {
    hide Resized;
    CellInRange(y, x, oldRows, oldCols);
    var s' := s[y * oldCols + x := w];
    var (r, r') := (Resized(s, oldRows, oldCols, newRows, newCols, erase), Resized(s', oldRows, oldCols, newRows, newCols, erase));
    var from := oldRows - Min(oldRows, newRows);
    if x < newCols && y >= from {
      ResizedCell(s, oldRows, oldCols, newRows, newCols, erase, y - from, x);
      ResizedCell(s', oldRows, oldCols, newRows, newCols, erase, y - from, x);
      if w == Cell(s, oldCols, y, x) {
        assert s' == s;
      }
    } else {
      CutOff(s, oldRows, oldCols, newRows, newCols, erase, y, x, w);
    }
  }

  lemma CutOff(s: seq<int>, oldRows: nat, oldCols: nat, newRows: nat, newCols: nat, erase: int, y: nat, x: nat, w: int)
    requires |s| == oldRows * oldCols && y < oldRows && x < oldCols && 0 <= y * oldCols + x < |s|
    requires x >= newCols || y < oldRows - Min(oldRows, newRows)
    ensures Resized(s[y * oldCols + x := w], oldRows, oldCols, newRows, newCols, erase)
            == Resized(s, oldRows, oldCols, newRows, newCols, erase)
  {
    hide Resized;
    var s' := s[y * oldCols + x := w];
    var (r, r') := (Resized(s, oldRows, oldCols, newRows, newCols, erase), Resized(s', oldRows, oldCols, newRows, newCols, erase));
    ResizedLength(s, oldRows, oldCols, newRows, newCols, erase);
    ResizedLength(s', oldRows, oldCols, newRows, newCols, erase);
    forall i | 0 <= i < newRows * newCols
      ensures r[i] == r'[i]
    {
      var (y', x') := (i / newCols, i % newCols);
      RowAndColumn(i, newRows, newCols);
      ResizedCell(s, oldRows, oldCols, newRows, newCols, erase, y', x');
      ResizedCell(s', oldRows, oldCols, newRows, newCols, erase, y', x');
      var y0 := oldRows - Min(oldRows, newRows) + y';
      if y' < Min(oldRows, newRows) && x' < oldCols {
        OtherCell(y, x, y0, x', oldCols);
      }
    }
  }

  lemma ResizedLength(s: seq<int>, oldRows: nat, oldCols: nat, newRows: nat, newCols: nat, erase: int)
    requires |s| == oldRows * oldCols
    ensures |Resized(s, oldRows, oldCols, newRows, newCols, erase)| == newRows * newCols
  {
    var n := Min(oldRows, newRows);
    FittedRowsLength(s, oldCols, newCols, oldRows - n, n, erase);
    MulAdd(n, newRows - n, newCols);
  }

  lemma RowAndColumn(i: nat, rows: nat, cols: nat)
    requires i < rows * cols
    ensures 0 < cols && i / cols < rows && i == i / cols * cols + i % cols
  {
    if i / cols >= rows {
      MulLe(rows, i / cols, cols);
    }
  }

  lemma OtherCell(y: nat, x: nat, y': nat, x': nat, cols: nat)
    requires x < cols && x' < cols && (y, x) != (y', x')
    ensures y * cols + x != y' * cols + x'
  {
    if y < y' {
      MulLe(y + 1, y', cols);
      MulAdd(y, 1, cols);
    } else if y' < y {
      MulLe(y' + 1, y, cols);
      MulAdd(y', 1, cols);
    }
  }

  /** The part of vc_data that a resize touches, with video memory and what the soft cursor of the
      display covers. */
  class Vc {
    const vram: array<int>
    const visible: bool           // on display
    var screenbuf: array<int>
    var inVram: bool              // whether the screen lies in video memory
    var origin: int
    var scrEnd: int
    var rows: nat
    var cols: nat
    var x: int
    var y: int
    var pos: int
    var top: nat
    var bottom: nat
    var needWrap: bool
    var savedX: int
    var savedY: int
    var eraseChar: int
    var covered: Option<int>

    ghost predicate Valid()
      reads this
    {
      Placed() && 0 <= origin && scrEnd <= Memory().Length
    }

    /** Valid but for the end of the screen, which may lie beyond video memory. */
    ghost predicate Placed()
      reads this
    {
      && 1 <= rows && 1 <= cols && scrEnd == origin + rows * cols && screenbuf.Length == rows * cols
      && screenbuf != vram && (if inVram then visible else origin == 0)
      && 0 <= x < cols && 0 <= y < rows && top < bottom <= rows
      && pos == Address()
    }

    /** The cursor's cell. */
    function Address(): int
      reads this`origin, this`x, this`y, this`cols
    {
      origin + y * cols + x
    }

    function Memory(): array<int>
      reads this
    {
      if inVram then vram else screenbuf
    }

    ghost function Shown(): (s: seq<int>)
      reads this, screenbuf, vram
      requires 0 <= origin <= scrEnd <= Memory().Length
    {
      if inVram then vram[origin..scrEnd] else screenbuf[origin..scrEnd]
    }

    /** gotoxy with the scrolling region reset to the whole screen. */
    method GotoXY(newX: int, newY: int)
      requires 1 <= rows && 1 <= cols
      modifies this`x, this`y, this`pos, this`needWrap
      ensures x == Clamp(0, newX, cols) && y == Clamp(0, newY, rows)
      ensures pos == Address() && !needWrap
    {
      x, y := Clamp(0, newX, cols), Clamp(0, newY, rows);
      pos := Address();
      needWrap := false;
    }

    /** scr_memcpyw */
    static method MemcpyW(d: array<int>, nl: nat, a: array<int>, ol: nat, n: nat)
      requires d != a && nl + n <= d.Length && ol + n <= a.Length
      modifies d
      ensures d[..nl] == old(d[..nl]) && d[nl..nl + n] == a[ol..ol + n]
    {
      for k := 0 to n
        invariant d[..nl] == old(d[..nl]) && d[nl..nl + k] == a[ol..ol + k]
      {
        d[nl + k] := a[ol + k];
        assert d[nl..nl + k + 1] == d[nl..nl + k] + [a[ol + k]];
      }
    }

    /** Copies one row of the old buffer into the new one and pads it. */
    static method CopyRow(d: array<int>, nl: nat, newCols: nat, a: array<int>, ol: nat, oldCols: nat, erase: int)
      requires d != a && nl + newCols <= d.Length && ol + oldCols <= a.Length
      modifies d
      ensures d[..nl] == old(d[..nl])
      ensures d[nl..nl + newCols] == a[ol..ol + Min(oldCols, newCols)] + Blank(newCols - Min(oldCols, newCols), erase)
    {
      var rlth := Min(oldCols, newCols);
      MemcpyW(d, nl, a, ol, rlth);
      ghost var m := d[..];
      if newCols > rlth {
        MemsetW(d, nl + rlth, erase, newCols - rlth);
      }
      RowPadded(m, d[..], nl, rlth, newCols, erase);
    }

    static lemma RowPadded(m: seq<int>, m': seq<int>, nl: nat, k: nat, n: nat, erase: int)
      requires k <= n && nl + n <= |m| && m' == (if n > k then Filled(m, nl + k, n - k, erase) else m)
      ensures m'[..nl] == m[..nl] && m'[nl..nl + n] == m[nl..nl + k] + Blank(n - k, erase)
    {
    }

    /** The copy loop and the erasure of the rows below it; the old screen is words o to end of a. */
    static method FillNew(d: array<int>, newRows: nat, newCols: nat, a: array<int>, o: nat, end: nat, oldRows: nat, oldCols: nat,
                          erase: int)
      requires d != a && d.Length == newRows * newCols && end == o + oldRows * oldCols <= a.Length && 1 <= oldCols
      modifies d
      ensures d[..] == Resized(a[o..end], oldRows, oldCols, newRows, newCols, erase)
    {
      hide FittedRows, Blank;
      var nl := CopyRows(d, newRows, newCols, a, o, end, oldRows, oldCols, erase);
      MulAdd(Min(oldRows, newRows), newRows - Min(oldRows, newRows), newCols);
      FillRest(d, nl, erase);
      assert d[..] == d[..nl] + d[nl..];
    }

    static method FillRest(d: array<int>, nl: nat, erase: int)
      requires nl <= d.Length
      modifies d
      ensures d[..nl] == old(d[..nl]) && d[nl..] == Blank(d.Length - nl, erase)
    {
      if d.Length > nl {
        MemsetW(d, nl, erase, d.Length - nl);
      }
    }

    /** The loop over the rows that are kept. */
    static method CopyRows(d: array<int>, newRows: nat, newCols: nat, a: array<int>, o: nat, end: nat, oldRows: nat, oldCols: nat,
                           erase: int)
      returns (nl: nat)
      requires d != a && Sized(d.Length, newRows, newCols) && 1 <= oldCols
      requires o <= end <= a.Length && Sized(end - o, oldRows, oldCols)
      modifies d
      ensures Kept(a[o..end], oldCols, newCols, oldRows - Min(oldRows, newRows), Min(oldRows, newRows), erase, end - o, nl, d[..])
    {
      hide Kept, Blank, Sized, Skipped;
      ghost var s := a[o..end];
      ghost var n := Min(oldRows, newRows);
      ghost var from := oldRows - n;
      var ol := o + Skipped(oldRows, oldCols, newRows);
      nl := 0;
      ghost var r := 0;
      KeptStart(s, oldRows, oldCols, newCols, from, erase, d[..]);
      while ol < end
        invariant r <= n && o <= ol && a[o..end] == s && Kept(s, oldCols, newCols, from, r, erase, ol - o, nl, d[..])
        decreases end - ol
      {
        ghost var before := d[..];
        KeptRoom(s, oldRows, oldCols, newRows, newCols, from, r, erase, ol - o, nl, before);
        CopyRow(d, nl, newCols, a, ol, oldCols, erase);
        SliceOfSlice(a[..], o, end, ol - o, ol - o + Min(oldCols, newCols));
        assert a[..][o + (ol - o)..o + (ol - o + Min(oldCols, newCols))] == a[ol..ol + Min(oldCols, newCols)];
        KeptStep(s, oldRows, oldCols, newRows, newCols, from, r, erase, ol - o, nl, before, d[..]);
        ol := ol + oldCols;
        nl := nl + newCols;
        r := r + 1;
      }
      KeptEnd(s, oldRows, oldCols, newCols, from, r, n, erase, ol - o, nl, d[..]);
    }

    /** vc_resize; 0 columns or lines means "unchanged".  `mem`, `err` and `vga` are what the allocator,
        con_resize and con_set_origin answer.  The words of the old screen, with the soft cursor if it is
        drawn, reappear in the new one; a display that keeps its screen in the buffer gets the word under
        the cursor at the cursor's new place, and one with video memory gets all of it there if it fits. */
    method VcResize(wantCols: nat, lines: nat, mem: bool, err: int, vga: bool) returns (ret: int)
      requires Valid() && (vga ==> visible)
      modifies this, vram
      ensures ret == if wantCols > MAX_SIDE || lines > MAX_SIDE then -EINVAL
                     else if old(SameSize(wantCols, lines)) then 0
                     else if !mem then -ENOMEM else err
      ensures ret != 0 || old(SameSize(wantCols, lines)) ==> unchanged(this) && unchanged(vram)
      ensures ret == 0 ==> cols == (if wantCols != 0 then wantCols else old(cols)) && rows == (if lines != 0 then lines else old(rows))
      ensures ret == 0 && !old(SameSize(wantCols, lines)) ==>
                && Placed() && origin == 0 && inVram == vga && (Valid() <==> !vga || rows * cols <= vram.Length)
                && fresh(screenbuf) && eraseChar == old(eraseChar)
                && x == Min(old(x), cols - 1) && y == Min(old(y), rows - 1) && pos == y * cols + x
                && (top, bottom) == (0, rows) && !needWrap && (savedX, savedY) == (x, y)
                && Redisplayed(vga, old(Shown()), old(rows), old(cols), old(covered), old(vram[..]))
    {
      hide Resized, Redisplayed;
      if wantCols > MAX_SIDE || lines > MAX_SIDE {
        return -EINVAL;
      }
      var newCols := if wantCols != 0 then wantCols else cols;
      var newRows := if lines != 0 then lines else rows;
      if newCols == cols && newRows == rows {
        return 0;
      }
      if !mem {
        return -ENOMEM;
      }
      if err != 0 {
        return err;
      }
      Replace(newRows, newCols, vga);
      return 0;
    }

    /** The memory after a resize from the screen s, `under` having been covered and v the video memory. */
    ghost predicate Redisplayed(vga: bool, s: seq<int>, oldRows: nat, oldCols: nat, under: Option<int>, v: seq<int>)
      reads this, screenbuf, vram
    {
      |s| == oldRows * oldCols && |v| == vram.Length && 0 <= pos &&
      var r := Resized(s, oldRows, oldCols, rows, cols, eraseChar);
      |r| == screenbuf.Length && covered == (if visible then None else under) && Displayed(vga, r, under, v)
    }

    /** Buffer and video memory once a buffer r is on display, or is not to be. */
    ghost predicate Displayed(vga: bool, r: seq<int>, under: Option<int>, v: seq<int>)
      reads this, screenbuf, vram
      requires 0 <= pos && |r| == screenbuf.Length && |v| == vram.Length
    {
      if vga then
        var n := Min(|r|, |v|);
        screenbuf[..] == r && vram[..] == r[..n] + v[n..]
      else
        vram[..] == v && pos < |r| && screenbuf[..] == if visible && under.Some? then r[pos := under.value] else r
    }

    method MakeScreen(newRows: nat, newCols: nat) returns (d: array<int>)
      requires Valid()
      ensures fresh(d) && d.Length == newRows * newCols
      ensures d[..] == Resized(Shown(), rows, cols, newRows, newCols, eraseChar)
    {
      hide Resized;
      MulLe(0, newRows, newCols);
      d := new int[newRows * newCols];
      FillNew(d, newRows, newCols, Memory(), origin, scrEnd, rows, cols, eraseChar);
      assert old(Memory()[origin..scrEnd]) == old(Shown());
    }

    lemma ShownLength()
      requires Valid()
      ensures |Shown()| == rows * cols && 0 <= x && 0 <= y
    {
    }

    /** The successful part: fill a new buffer, install it, put the cursor back on the screen and
        redraw it. */
    method Replace(newRows: nat, newCols: nat, vga: bool)
      requires Valid() && 1 <= newRows && 1 <= newCols && (vga ==> visible)
      modifies this, vram
      ensures Placed() && origin == 0 && inVram == vga && (cols, rows) == (newCols, newRows)
      ensures fresh(screenbuf) && eraseChar == old(eraseChar)
      ensures x == Min(old(x), cols - 1) && y == Min(old(y), rows - 1)
      ensures (top, bottom) == (0, rows) && !needWrap && (savedX, savedY) == (x, y)
      ensures Redisplayed(vga, old(Shown()), old(rows), old(cols), old(covered), old(vram[..]))
    {
      hide Resized, Displayed, Memory, Shown;
      ShownLength();
      var newScreen := MakeScreen(newRows, newCols);
      Install(newScreen, newRows, newCols, vga);
      Redisplay(vga);
    }

    lemma AllPlaced()
      requires 1 <= rows && 1 <= cols && scrEnd == origin + Words(rows, cols) && screenbuf.Length == Words(rows, cols)
      requires screenbuf != vram && (if inVram then visible else origin == 0)
      requires 0 <= x < cols && 0 <= y < rows && top < bottom <= rows && pos == Address()
      ensures Placed()
    {
    }

    /** The new dimensions, set_origin and the new margins. */
    method Adopt(newScreen: array<int>, newRows: nat, newCols: nat, vga: bool)
      modifies this`screenbuf, this`inVram, this`origin, this`scrEnd, this`rows, this`cols, this`top, this`bottom
      ensures (rows, cols) == (newRows, newCols) && screenbuf == newScreen && (top, bottom) == (0, newRows)
      ensures inVram == vga && origin == 0 && scrEnd == Words(newRows, newCols)
    {
      rows, cols, screenbuf := newRows, newCols, newScreen;
      inVram, origin, scrEnd := vga, 0, Words(rows, cols);
      top, bottom := 0, rows;
    }

    /** The new buffer takes the old one's place. */
    method Install(newScreen: array<int>, newRows: nat, newCols: nat, vga: bool)
      requires 0 <= x && 0 <= y && 1 <= newRows && 1 <= newCols && (vga ==> visible)
      requires newScreen != vram && newScreen.Length == Words(newRows, newCols)
      modifies this
      ensures Placed() && origin == 0 && inVram == vga && (cols, rows) == (newCols, newRows) && screenbuf == newScreen
      ensures eraseChar == old(eraseChar) && covered == old(covered)
      ensures x == Min(old(x), cols - 1) && y == Min(old(y), rows - 1)
      ensures (top, bottom) == (0, rows) && !needWrap && (savedX, savedY) == (x, y)
    {
      hide Address, Words, Placed;
      Adopt(newScreen, newRows, newCols, vga);
      GotoXY(x, y);
      savedX, savedY := x, y;
      AllPlaced();
    }

    /** update_screen, up to drawing the cursor again. */
    method Redisplay(vga: bool)
      requires Placed() && origin == 0 && inVram == vga && (vga ==> visible)
      modifies this`covered, screenbuf, vram
      ensures 0 <= pos < screenbuf.Length && covered == (if visible then None else old(covered))
      ensures Displayed(vga, old(screenbuf[..]), old(covered), old(vram[..]))
    {
      CellInRange(y, x, rows, cols);
      if visible {
        HideSoftcursor();
        if vga {
          CopyOut();
        }
      }
    }

    /** hide_softcursor; a cursor beyond video memory is not in it. */
    method HideSoftcursor()
      requires 0 <= pos
      modifies this`covered, Memory()
      ensures covered == None
      ensures Memory()[..] == if old(covered).Some? && pos < Memory().Length then old(Memory()[..])[pos := old(covered).value]
                              else old(Memory()[..])
    {
      if covered.Some? {
        if pos < Memory().Length {
          Memory()[pos] := covered.value;
        }
        covered := None;
      }
    }

    /** vgacon_switch: as much of the buffer as there is video memory. */
    method CopyOut()
      requires screenbuf != vram
      modifies vram
      ensures var n := Min(screenbuf.Length, vram.Length); vram[..] == screenbuf[..n] + old(vram[n..])
    {
      var n := Min(screenbuf.Length, vram.Length);
      ghost var v := vram[..];
      for i := 0 to n
        invariant vram[..] == screenbuf[..i] + v[i..]
      {
        vram[i] := screenbuf[i];
      }
    }

    ghost predicate SameSize(wantCols: nat, lines: nat)
      reads this`cols, this`rows
    {
      (wantCols == 0 || wantCols == cols) && (lines == 0 || lines == rows)
    }
  }

  function Words(rows: nat, cols: nat): int {
    rows * cols
  }

  /** r rows have been copied: ol and nl are the offsets reached in the old and the new buffer d. */
  ghost predicate Kept(s: seq<int>, oldCols: nat, newCols: nat, from: nat, r: nat, erase: int, ol: nat, nl: nat, d: seq<int>) {
    ol == (from + r) * oldCols <= |s| && nl == r * newCols <= |d| &&
    d[..nl] == FittedRows(s, oldCols, newCols, from, r, erase)
  }

  predicate Sized(n: nat, rows: nat, cols: nat) {
    n == rows * cols
  }

  /** The offset of the first row that is kept. */
  function Skipped(oldRows: nat, oldCols: nat, newRows: nat): (n: nat)
    ensures n == (oldRows - Min(oldRows, newRows)) * oldCols
  {
    MulLe(0, oldRows - Min(oldRows, newRows), oldCols);
    if newRows < oldRows then (oldRows - newRows) * oldCols else 0
  }

  lemma KeptStart(s: seq<int>, oldRows: nat, oldCols: nat, newCols: nat, from: nat, erase: int, d: seq<int>)
    requires Sized(|s|, oldRows, oldCols) && from <= oldRows
    ensures 0 <= from * oldCols && Kept(s, oldCols, newCols, from, 0, erase, from * oldCols, 0, d)
  {
    MulLe(from, oldRows, oldCols);
  }

  lemma KeptRoom(s: seq<int>, oldRows: nat, oldCols: nat, newRows: nat, newCols: nat, from: nat, r: nat, erase: int,
                 ol: nat, nl: nat, d: seq<int>)
    requires Sized(|s|, oldRows, oldCols) && Sized(|d|, newRows, newCols) && from + Min(oldRows, newRows) == oldRows
    requires Kept(s, oldCols, newCols, from, r, erase, ol, nl, d) && ol < |s|
    ensures r < Min(oldRows, newRows) && ol + oldCols <= |s| && nl + newCols <= |d|
  {
    hide FittedRows;
    RowsLeft(from, r, oldRows, oldCols, newRows, newCols);
  }

  lemma KeptStep(s: seq<int>, oldRows: nat, oldCols: nat, newRows: nat, newCols: nat, from: nat, r: nat, erase: int,
                 ol: nat, nl: nat, d: seq<int>, d': seq<int>)
    requires Sized(|s|, oldRows, oldCols) && |d| == |d'| && Sized(|d|, newRows, newCols) && from + Min(oldRows, newRows) == oldRows
    requires Kept(s, oldCols, newCols, from, r, erase, ol, nl, d) && ol < |s|
    requires ol + oldCols <= |s| && nl + newCols <= |d| && d'[..nl] == d[..nl]
    requires d'[nl..nl + newCols] == s[ol..ol + Min(oldCols, newCols)] + Blank(newCols - Min(oldCols, newCols), erase)
    ensures Kept(s, oldCols, newCols, from, r + 1, erase, ol + oldCols, nl + newCols, d')
  {
    hide FittedRows, Fitted, Blank;
    RowsLeft(from, r, oldRows, oldCols, newRows, newCols);
    FittedRowsLast(s, oldCols, newCols, from, r + 1, erase);
    FittedIs(s, oldCols, newCols, from + r, erase);
    assert d'[..nl + newCols] == d'[..nl] + d'[nl..nl + newCols];
  }

  lemma KeptEnd(s: seq<int>, oldRows: nat, oldCols: nat, newCols: nat, from: nat, r: nat, n: nat, erase: int,
                ol: nat, nl: nat, d: seq<int>)
    requires Sized(|s|, oldRows, oldCols) && from + n == oldRows && r <= n && 1 <= oldCols
    requires Kept(s, oldCols, newCols, from, r, erase, ol, nl, d) && |s| <= ol
    ensures Kept(s, oldCols, newCols, from, n, erase, |s|, nl, d)
  {
    hide FittedRows;
    AllRows(from, r, n, oldRows, oldCols);
  }

  lemma FittedIs(s: seq<int>, oldCols: nat, newCols: nat, y: nat, erase: int)
    requires y * oldCols + oldCols <= |s|
    ensures Fitted(s, oldCols, newCols, y, erase)
            == s[y * oldCols..y * oldCols + Min(oldCols, newCols)] + Blank(newCols - Min(oldCols, newCols), erase)
  {
  }

  lemma RowsLeft(from: nat, r: nat, oldRows: nat, oldCols: nat, newRows: nat, newCols: nat)
    requires (from + r) * oldCols < oldRows * oldCols && from + Min(oldRows, newRows) == oldRows
    ensures r < Min(oldRows, newRows)
    ensures (from + r) * oldCols + oldCols == (from + r + 1) * oldCols <= oldRows * oldCols
    ensures r * newCols + newCols == (r + 1) * newCols <= newRows * newCols
  {
    if from + r >= oldRows {
      MulLe(oldRows, from + r, oldCols);
    }
    MulLe(from + r + 1, oldRows, oldCols);
    MulLe(r + 1, newRows, newCols);
    MulAdd(from + r, 1, oldCols);
    MulAdd(r, 1, newCols);
  }

  lemma AllRows(from: nat, r: nat, n: nat, oldRows: nat, oldCols: nat)
    requires oldRows * oldCols <= (from + r) * oldCols && r <= n && from + n == oldRows && 1 <= oldCols
    ensures r == n
  {
    if r < n {
      MulLe(from + r + 1, oldRows, oldCols);
      MulAdd(from + r, 1, oldCols);
    }
  }
}
