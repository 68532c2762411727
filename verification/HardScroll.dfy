/** Scrolling a console that lives in video memory: the fast form that moves the window's origin
    (drivers/video/console/vgacon.c:1005-1053) against the simple form that moves the words
    (drivers/char/vt.c:330-361).  Addresses are word offsets from vga_vram_base. */
module HardScroll {
  import opened Screen

  datatype Direction = SM_UP | SM_DOWN

  const TWO32: int := 0x1_0000_0000

  type CInt = x: int | -0x8000_0000 <= x < 0x8000_0000

  /** VC_RESIZE_MAXROW and VC_RESIZE_MAXCOL. */
  const MAX_SIDE: nat := 32767

  // ---- the window after a hardware scroll, in terms of memory contents ----

  /** Moving the origin up and erasing behind the old end. */
  lemma UpWindow(m: seq<int>, o: nat, size: nat, delta: nat, c: int)
    requires o + size + delta <= |m| && delta <= size
    ensures Filled(m, o + size, delta, c)[o + delta..o + delta + size] == ShiftUp(m[o..o + size], 0, size, delta, c)
  {
  }

  /** Wrapping to the start of memory instead. */
  lemma UpWrapped(m: seq<int>, o: nat, size: nat, delta: nat, c: int)
    requires o + size <= |m| && delta <= size
    ensures Filled(Copied(m, 0, o + delta, size - delta), size - delta, delta, c)[0..size]
            == ShiftUp(m[o..o + size], 0, size, delta, c)
  {
    var k := Copied(m, 0, o + delta, size - delta);
    assert k[..size - delta] == m[o..o + size][delta..];
  }

  lemma DownWindow(m: seq<int>, o: nat, size: nat, delta: nat, c: int)
    requires delta <= o && o + size <= |m| && delta <= size
    ensures Filled(m, o - delta, delta, c)[o - delta..o - delta + size] == ShiftDown(m[o..o + size], 0, size, delta, c)
  {
    hide Filled, ShiftDown;
    var w := m[o..o + size];
    forall j | 0 <= j < size
      ensures Filled(m, o - delta, delta, c)[o - delta..o - delta + size][j] == ShiftDown(w, 0, size, delta, c)[j]
    {
      FilledAt(m, o - delta, delta, c, o - delta + j);
      ShiftDownAt(w, 0, size, delta, c, j);
    }
  }

  lemma HalfFits(lines: nat, rows: nat, cols: nat)
    requires lines <= rows
    ensures 0 <= lines * cols <= rows * cols
  {
  }

  /** Wrapping to the end of memory instead. */
  lemma DownWrapped(m: seq<int>, o: nat, size: nat, delta: nat, c: int)
    requires o + size <= |m| && delta <= size
    ensures var e := |m| - size;
            Filled(Copied(m, e + delta, o, size - delta), e, delta, c)[e..e + size] == ShiftDown(m[o..o + size], 0, size, delta, c)
  {
    var e := |m| - size;
    var k := Copied(m, e + delta, o, size - delta);
    assert k[e + delta..] == m[o..o + size][..size - delta];
  }

  class VgaConsole {
    const vram: array<int>
    const rows: nat
    const cols: nat
    var origin: int          // vc_origin
    var visibleOrigin: int   // vc_visible_origin
    var scrEnd: int          // vc_scr_end
    var pos: int             // vc_pos
    var rolledOver: int      // vga_rolled_over
    var eraseChar: int       // vc_video_erase_char
    var isGfx: bool          // vga_is_gfx
    var hardScroll: bool     // vga_hardscroll_enabled
    var isVisible: bool      // IS_VISIBLE

    /** vc_screenbuf_size, in words. */
    function Size(): nat {
      rows * cols
    }

    /** The window lies inside video memory. */
    ghost predicate Valid()
      reads this
    {
      rows <= MAX_SIDE && cols <= MAX_SIDE && 0 <= origin && scrEnd == origin + Size() <= vram.Length
    }

    /** What the console shows: the words of its window. */
    ghost function Shown(): (s: seq<int>)
      reads this, vram
      requires Valid()
      ensures |s| == Size()
    {
      vram[origin..scrEnd]
    }

    constructor (memory: array<int>, rows: nat, cols: nat)
      requires rows <= MAX_SIDE && cols <= MAX_SIDE && rows * cols <= memory.Length
      ensures Valid() && vram == memory && this.rows == rows && this.cols == cols && origin == 0
    {
      vram := memory;
      this.rows, this.cols := rows, cols;
      origin, visibleOrigin, pos, rolledOver := 0, 0, 0, 0;
      scrEnd := rows * cols;
      eraseChar, isGfx, hardScroll, isVisible := 0x0720, false, true, true;
    }

    /** The window moves up by delta words, to the start of video memory if it would run into
        its end. */
    method HardwareUp(delta: nat)
      requires Valid() && delta <= Size()
      modifies this`origin, this`rolledOver, vram
      ensures 0 <= origin && origin + Size() <= vram.Length
      ensures vram[..][origin..origin + Size()] == ShiftUp(old(Shown()), 0, Size(), delta, eraseChar)
      ensures (rolledOver == old(rolledOver) && origin == old(origin) + delta)
              || (rolledOver == old(origin) && origin == 0)
    {
      hide ShiftUp, Copied, Filled, Size;
      ghost var m, size := vram[..], Size();
      assert Shown() == m[origin..origin + size];
      var oldo := origin;
      if scrEnd + delta >= vram.Length {
        UpWrapped(m, oldo, size, delta, eraseChar);
        MemcpyW(vram, 0, oldo + delta, Size() - delta);
        origin := 0;
        rolledOver := oldo;
      } else {
        UpWindow(m, oldo, size, delta, eraseChar);
        origin := origin + delta;
      }
      MemsetW(vram, origin + Size() - delta, eraseChar, delta);
    }

    /** The window moves down by delta words, to the end of video memory if it would run below
        its start. */
    method HardwareDown(delta: nat)
      requires Valid() && delta <= Size()
      modifies this`origin, this`rolledOver, vram
      ensures 0 <= origin && origin + Size() <= vram.Length
      ensures vram[..][origin..origin + Size()] == ShiftDown(old(Shown()), 0, Size(), delta, eraseChar)
      ensures (rolledOver == old(rolledOver) && origin == old(origin) - delta)
              || (rolledOver == 0 && origin == vram.Length - Size())
    {
      hide ShiftDown, Copied, Filled, Size;
      ghost var m, size := vram[..], Size();
      assert Shown() == m[origin..origin + size];
      var oldo := origin;
      if oldo - delta < 0 {
        DownWrapped(m, oldo, size, delta, eraseChar);
        MemmoveW(vram, vram.Length - Size() + delta, oldo, Size() - delta);
        origin := vram.Length - Size();
        rolledOver := 0;
      } else {
        DownWindow(m, oldo, size, delta, eraseChar);
        origin := origin - delta;
      }
      MemsetW(vram, origin, eraseChar, delta);
    }

    /** vgacon_scroll_region: refuses partial regions, graphics mode, a disabled hardware scroll
        and long scrolls; otherwise the console shows the scrolled screen, inside video memory,
        with the cursor at its old distance from the origin. */
    method VgaconScrollRegion(t: nat, b: nat, dir: Direction, lines: nat) returns (done: bool)
      requires Valid()
      modifies this`origin, this`visibleOrigin, this`scrEnd, this`pos, this`rolledOver, vram
      ensures Valid() && pos - origin == old(pos - origin)
      ensures done <==> t == 0 && b == rows && !isGfx && hardScroll && lines < rows / 2
      ensures !done ==> Shown() == old(Shown()) && origin == old(origin)
      ensures done ==> lines * cols <= Size() && visibleOrigin == origin
      ensures done ==> Shown() == match dir
                                  case SM_UP => ShiftUp(old(Shown()), 0, Size(), lines * cols, eraseChar)
                                  case SM_DOWN => ShiftDown(old(Shown()), 0, Size(), lines * cols, eraseChar)
    {
      hide ShiftUp, ShiftDown, Size;
      if t != 0 || b != rows || isGfx {
        return false;
      }
      if origin != visibleOrigin {
        visibleOrigin := origin;
      }
      if !hardScroll || lines >= rows / 2 {
        return false;
      }
      SizeCovers(lines);
      Roll(dir, lines * cols);
      return true;
    }

    /** The window moves, and everything that refers to it moves along. */
    method Roll(dir: Direction, delta: nat)
      requires Valid() && delta <= Size()
      modifies this`origin, this`visibleOrigin, this`scrEnd, this`pos, this`rolledOver, vram
      ensures Valid() && pos - origin == old(pos - origin) && visibleOrigin == origin
      ensures Shown() == match dir
                         case SM_UP => ShiftUp(old(Shown()), 0, Size(), delta, eraseChar)
                         case SM_DOWN => ShiftDown(old(Shown()), 0, Size(), delta, eraseChar)
    {
      hide ShiftUp, ShiftDown, Size;
      var oldo := origin;
      if dir == SM_UP {
        HardwareUp(delta);
      } else {
        HardwareDown(delta);
      }
      scrEnd := origin + Size();
      visibleOrigin := origin;
      pos := (pos - oldo) + origin;
      assert Shown() == vram[..][origin..origin + Size()];
    }

    lemma SizeCovers(n: nat)
      requires n <= rows
      ensures 0 <= n * cols <= Size()
    {
      HalfFits(n, rows, cols);
    }

    /** How many lines a scroll of region t..b by nr moves: nr is clipped, in 32-bit unsigned
        arithmetic, so that one line of the region remains. */
    function Scrolled(t: nat, b: nat, nr: CInt): nat {
      if b > rows || t >= b then 0
      else if (t + nr) % TWO32 >= b then b - t - 1
      else if nr < 1 then 0 else nr
    }

    lemma ScrolledFits(t: nat, b: nat, nr: CInt)
      requires rows <= MAX_SIDE
      ensures Scrolled(t, b, nr) > 0 ==>
                t < b <= rows && t + Scrolled(t, b, nr) <= b
                && 0 <= t * cols && 0 <= Scrolled(t, b, nr) * cols
                && t * cols + Scrolled(t, b, nr) * cols <= b * cols <= Size()
      ensures b <= rows && t < b && 1 <= nr ==> Scrolled(t, b, nr) == if nr < b - t then nr else b - t - 1
    {
      var n := Scrolled(t, b, nr);
      if n > 0 {
        RegionFits(rows, cols, t, b, n);
        MulLe(0, t, cols);
        MulLe(0, n, cols);
      }
    }

    method SoftwareUp(lo: nat, hi: nat, n: nat)
      requires Valid() && lo + n <= hi <= Size()
      modifies vram
      ensures Shown() == ShiftUp(old(Shown()), lo, hi, n, eraseChar)
    {
      hide ShiftUp, Size;
      MoveUp(vram, origin, Size(), lo, hi, n, eraseChar);
      assert Shown() == vram[..][origin..origin + Size()];
    }

    method SoftwareDown(lo: nat, hi: nat, n: nat)
      requires Valid() && lo + n <= hi <= Size()
      modifies vram
      ensures Shown() == ShiftDown(old(Shown()), lo, hi, n, eraseChar)
    {
      hide ShiftDown, Size;
      MoveDown(vram, origin, Size(), lo, hi, n, eraseChar);
      assert Shown() == vram[..][origin..origin + Size()];
    }

    ghost function ScrolledUp(s: seq<int>, t: nat, b: nat, nr: CInt): seq<int>
      reads this
      requires |s| == Size() && rows <= MAX_SIDE
    {
      ScrolledFits(t, b, nr);
      if Scrolled(t, b, nr) == 0 then s else ShiftUp(s, t * cols, b * cols, Scrolled(t, b, nr) * cols, eraseChar)
    }

    ghost function ScrolledDown(s: seq<int>, t: nat, b: nat, nr: CInt): seq<int>
      reads this
      requires |s| == Size() && rows <= MAX_SIDE
    {
      ScrolledFits(t, b, nr);
      if Scrolled(t, b, nr) == 0 then s else ShiftDown(s, t * cols, b * cols, Scrolled(t, b, nr) * cols, eraseChar)
    }

    /** What scrolling a region of the screen by nr lines, or as many as leave it one, shows in each cell; a
        region that is not on the screen does not move. */
    lemma RegionUpCell(s: seq<int>, t: nat, b: nat, nr: CInt, y: nat, x: nat)
      requires |s| == Size() && rows <= MAX_SIDE && 1 <= nr && y < rows && x < cols
      ensures |ScrolledUp(s, t, b, nr)| == |s| && 0 <= y * cols + x < |s|
      ensures t < b <= rows ==>
                var n := if nr < b - t then nr else b - t - 1;
                (t <= y < b - n ==> 0 <= (y + n) * cols + x < |s|) &&
                Cell(ScrolledUp(s, t, b, nr), cols, y, x)
                == if t <= y < b - n then Cell(s, cols, y + n, x) else if b - n <= y < b then eraseChar else Cell(s, cols, y, x)
      ensures b > rows || t >= b ==> ScrolledUp(s, t, b, nr) == s
    {
      hide ShiftUp, Cell;
      ScrolledFits(t, b, nr);
      CellInRange(y, x, rows, cols);
      if t < b <= rows {
        ScrollUpCell(s, rows, cols, t, b, Scrolled(t, b, nr), eraseChar, y, x);
      }
    }

    lemma RegionDownCell(s: seq<int>, t: nat, b: nat, nr: CInt, y: nat, x: nat)
      requires |s| == Size() && rows <= MAX_SIDE && 1 <= nr && y < rows && x < cols
      ensures |ScrolledDown(s, t, b, nr)| == |s| && 0 <= y * cols + x < |s|
      ensures t < b <= rows ==>
                var n := if nr < b - t then nr else b - t - 1;
                (t + n <= y < b ==> 0 <= (y - n) * cols + x < |s|) &&
                Cell(ScrolledDown(s, t, b, nr), cols, y, x)
                == if t + n <= y < b then Cell(s, cols, y - n, x) else if t <= y < t + n then eraseChar else Cell(s, cols, y, x)
      ensures b > rows || t >= b ==> ScrolledDown(s, t, b, nr) == s
    {
      hide ShiftDown, Cell;
      ScrolledFits(t, b, nr);
      CellInRange(y, x, rows, cols);
      if t < b <= rows {
        ScrollDownCell(s, rows, cols, t, b, Scrolled(t, b, nr), eraseChar, y, x);
      }
    }

    /** scroll_region_up: the console shows the same screen whether the hardware or the software
        did the work, and the cursor keeps its place in the window. */
    method ScrollRegionUp(t: nat, b: nat, nr: CInt)
      requires Valid()
      modifies this`origin, this`visibleOrigin, this`scrEnd, this`pos, this`rolledOver, vram
      ensures Valid() && pos - origin == old(pos - origin)
      ensures Shown() == old(ScrolledUp(Shown(), t, b, nr))
    {
      hide ShiftUp, Size;
      ScrolledFits(t, b, nr);
      var n := nr;
      if (t + n) % TWO32 >= b {
        n := b - t - 1;
      }
      if b > rows || t >= b || n < 1 {
        return;
      }
      ScrollUpBy(t, b, n);
    }

    method ScrollUpBy(t: nat, b: nat, n: nat)
      requires Valid() && t + n <= b <= rows && 0 <= t * cols && 0 <= n * cols && t * cols + n * cols <= b * cols <= Size()
      modifies this`origin, this`visibleOrigin, this`scrEnd, this`pos, this`rolledOver, vram
      ensures Valid() && pos - origin == old(pos - origin)
      ensures Shown() == ShiftUp(old(Shown()), t * cols, b * cols, n * cols, eraseChar)
    {
      hide ShiftUp, Size;
      if isVisible {
        var done := VgaconScrollRegion(t, b, SM_UP, n);
        if done {
          SizeIs();
          return;
        }
      }
      SoftwareUp(t * cols, b * cols, n * cols);
    }

    /** scroll_region_down, likewise. */
    method ScrollRegionDown(t: nat, b: nat, nr: CInt)
      requires Valid()
      modifies this`origin, this`visibleOrigin, this`scrEnd, this`pos, this`rolledOver, vram
      ensures Valid() && pos - origin == old(pos - origin)
      ensures Shown() == old(ScrolledDown(Shown(), t, b, nr))
    {
      hide ShiftDown, Size;
      ScrolledFits(t, b, nr);
      var n := nr;
      if (t + n) % TWO32 >= b {
        n := b - t - 1;
      }
      if b > rows || t >= b || n < 1 {
        return;
      }
      ScrollDownBy(t, b, n);
    }

    method ScrollDownBy(t: nat, b: nat, n: nat)
      requires Valid() && t + n <= b <= rows && 0 <= t * cols && 0 <= n * cols && t * cols + n * cols <= b * cols <= Size()
      modifies this`origin, this`visibleOrigin, this`scrEnd, this`pos, this`rolledOver, vram
      ensures Valid() && pos - origin == old(pos - origin)
      ensures Shown() == ShiftDown(old(Shown()), t * cols, b * cols, n * cols, eraseChar)
    {
      hide ShiftDown, Size;
      if isVisible {
        var done := VgaconScrollRegion(t, b, SM_DOWN, n);
        if done {
          SizeIs();
          return;
        }
      }
      SoftwareDown(t * cols, b * cols, n * cols);
    }

    lemma SizeIs()
      ensures Size() == rows * cols
    {
    }
  }
}
