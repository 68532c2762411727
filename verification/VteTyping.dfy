/** Text that is longer than the screen (drivers/char/vt.c:1308-1350): the scrolling region is a window
    on an endless roll of paper, and shows its end.  A region of a single row does not move: there the
    text starts over at the left and overwrites itself. */
module VteTyping {
  import opened Screen
  import opened VteState
  import opened VteScreen
  import opened VteCommands
  import opened VteParser
  import opened VteText
  import Utf8

  // ---- the roll ----

  /** One more cell at place p of the region; past its end the region moves up a row first, if it has
      more than one. */
  function TypeOne(region: seq<int>, p: nat, v: int, cols: nat, erase: int): (r: (seq<int>, nat))
    requires 0 < cols <= |region| && p <= |region|
    ensures |r.0| == |region| && r.1 <= |region|
  {
    if p < |region| then (region[p := v], p + 1)
    else if cols < |region| then ((region[cols..] + Blank(cols, erase))[p - cols := v], p - cols + 1)
    else (region[0 := v], 1)
  }

  function TypeAll(region: seq<int>, p: nat, image: seq<int>, cols: nat, erase: int): (r: (seq<int>, nat))
    requires 0 < cols <= |region| && p <= |region|
    ensures |r.0| == |region| && r.1 <= |region|
    decreases |image|
  {
    if |image| == 0 then (region, p)
    else
      var (region1, p1) := TypeOne(region, p, image[0], cols, erase);
      TypeAll(region1, p1, image[1..], cols, erase)
  }

  /** The rows by which `over` more cells than there is room for move the region up. */
  function RowsOver(over: int, cols: nat): (j: nat)
    requires 0 < cols
    ensures over <= j * cols && (over > 0 ==> j * cols < over + cols) && (over <= 0 ==> j == 0)
    decreases if over > 0 then over else 0
  {
    if over <= 0 then 0
    else
      MulAdd(RowsOver(over - cols, cols), 1, cols);
      1 + RowsOver(over - cols, cols)
  }

  /** What stands after the text in its last row once the first k cells of the roll are gone: blanks, or
      in a region of one row what the text last wrote there. */
  function Rest(n: nat, roll: seq<int>, k: nat, cols: nat, erase: int): (r: seq<int>)
    requires n <= |roll| && |roll| - n <= k <= |roll|
    ensures |r| == k - (|roll| - n)
  {
    if cols < n then Blank(k - (|roll| - n), erase) else roll[|roll| - n..k]
  }

  /** The region before p, then the text, then the rest of its row or what was there: the last |region|
      cells of it, in whole rows. */
  function EndOfRoll(region: seq<int>, p: nat, image: seq<int>, cols: nat, erase: int): (r: seq<int>)
    requires 0 < cols <= |region| && p <= |region|
  {
    var roll := region[..p] + image;
    var over := |roll| - |region|;
    var j := RowsOver(over, cols);
    if over <= 0 then roll + region[|roll|..] else (roll + Rest(|region|, roll, j * cols, cols, erase))[j * cols..]
  }

  /** Once the text is over the end of a one-row region, the row holds its last cells: each column the
      last one that was written there. */
  lemma OneRowOverwritten(region: seq<int>, p: nat, image: seq<int>, cols: nat, erase: int, i: nat)
    requires 0 < cols == |region| && p <= |region| < p + |image| && i < cols
    ensures var roll := region[..p] + image;
            var j := RowsOver(|roll| - cols, cols);
            0 < j * cols < |roll| && |EndOfRoll(region, p, image, cols, erase)| == cols && 0 <= j * cols + i - cols &&
            EndOfRoll(region, p, image, cols, erase)[i] == if j * cols + i < |roll| then roll[j * cols + i] else roll[j * cols + i - cols]
  {
    hide RowsOver;
    var j := RowsOver(p + |image| - cols, cols);
    MulLe(1, j, cols);
  }

  lemma RollStep(region: seq<int>, p: nat, image: seq<int>, cols: nat, erase: int)
    requires 0 < cols <= |region| && p < |region| && |image| > 0
    ensures EndOfRoll(region[p := image[0]], p + 1, image[1..], cols, erase) == EndOfRoll(region, p, image, cols, erase)
  {
    hide RowsOver, Rest;
    var region1 := region[p := image[0]];
    assert region1[..p + 1] + image[1..] == region[..p] + image;
    var n := p + |image|;
    if n <= |region| {
      assert region1[n..] == region[n..];
    }
  }

  lemma RollUp(region: seq<int>, image: seq<int>, cols: nat, erase: int)
    requires 0 < cols <= |region| && |image| > 0
    ensures var (region1, p1) := TypeOne(region, |region|, image[0], cols, erase);
            EndOfRoll(region1, p1, image[1..], cols, erase) == EndOfRoll(region, |region|, image, cols, erase)
  {
    hide RowsOver, TypeOne, Blank, EndOfRoll, Rest;
    var n, over := |region|, |image|;
    var (region1, p1) := TypeOne(region, n, image[0], cols, erase);
    MovedUp(region, image, cols, erase);
    var roll := region[..n] + image;
    RowsOverStep(over, cols);
    var k := RowsOver(over - cols, cols);
    EndOver(region, n, image, cols, erase, k + 1);
    MulAdd(k, 1, cols);
    if over <= cols {
      EndFits(region1, p1, image[1..], cols, erase);
      DropMore(roll, Rest(n, roll, cols, cols, erase), cols, 0);
    } else {
      MulLe(0, k, cols);
      EndOver(region1, p1, image[1..], cols, erase, k);
      SameRest(n, roll, k * cols, cols, erase);
      DropMore(roll, Rest(n, roll, (k + 1) * cols, cols, erase), cols, k * cols);
    }
  }

  lemma EndFits(region: seq<int>, p: nat, image: seq<int>, cols: nat, erase: int)
    requires 0 < cols <= |region| && p + |image| <= |region|
    ensures EndOfRoll(region, p, image, cols, erase) == region[..p] + image + region[p + |image|..]
  {
    hide RowsOver;
  }

  lemma EndOver(region: seq<int>, p: nat, image: seq<int>, cols: nat, erase: int, j: nat)
    requires 0 < cols <= |region| && p <= |region| < p + |image| && j == RowsOver(p + |image| - |region|, cols)
    ensures p + |image| - |region| <= j * cols <= p + |image|
    ensures var roll := region[..p] + image;
            EndOfRoll(region, p, image, cols, erase) == (roll + Rest(|region|, roll, j * cols, cols, erase))[j * cols..]
  {
    hide RowsOver, Rest;
  }

  lemma SameRest(n: nat, roll: seq<int>, k: nat, cols: nat, erase: int)
    requires cols <= n && n + cols <= |roll| && |roll| - n <= k + cols <= |roll|
    ensures Rest(n, roll[cols..], k, cols, erase) == Rest(n, roll, k + cols, cols, erase)
  {
  }

  lemma DropMore(a: seq<int>, pad: seq<int>, c: nat, k: nat)
    requires c <= |a| && c + k <= |a| + |pad|
    ensures (a[c..] + pad)[k..] == (a + pad)[c + k..]
  {
    assert a[c..] + pad == (a + pad)[c..];
  }

  /** The region at the start of a new row, and what the roll looks like from there. */
  lemma MovedUp(region: seq<int>, image: seq<int>, cols: nat, erase: int)
    requires 0 < cols <= |region| && |image| > 0
    ensures var (region1, p1) := TypeOne(region, |region|, image[0], cols, erase);
            var roll := region[..|region|] + image;
            p1 == |region| - cols + 1 && region1[..p1] + image[1..] == roll[cols..] &&
            (|image| <= cols ==> region1[|region| - cols + |image|..] == Rest(|region|, roll, cols, cols, erase))
  {
    var n := |region|;
    var (region1, p1) := TypeOne(region, n, image[0], cols, erase);
    assert region1[..p1] == region[cols..] + [image[0]];
    assert image == [image[0]] + image[1..];
    if |image| <= cols && cols < n {
      assert region1[n - cols + |image|..] == Blank(cols - |image|, erase);
    }
  }

  lemma RowsOverStep(over: int, cols: nat)
    requires 0 < cols && over > 0
    ensures RowsOver(over, cols) == 1 + RowsOver(over - cols, cols)
    ensures over <= cols ==> RowsOver(over, cols) == 1
  {
  }

  /** Typing cell by cell leaves the end of the roll. */
  lemma {:induction false} TypeAllIs(region: seq<int>, p: nat, image: seq<int>, cols: nat, erase: int)
    requires 0 < cols <= |region| && p <= |region|
    ensures TypeAll(region, p, image, cols, erase).0 == EndOfRoll(region, p, image, cols, erase)
    ensures TypeAll(region, p, image, cols, erase).1 == p + |image| - RowsOver(p + |image| - |region|, cols) * cols
    decreases |image|
  {
    hide RowsOver, EndOfRoll, TypeOne;
    if |image| == 0 {
      NothingTyped(region, p, cols, erase);
    } else {
      var (region1, p1) := TypeOne(region, p, image[0], cols, erase);
      TypeAllIs(region1, p1, image[1..], cols, erase);
      TypeOneIs(region, p, image[0], cols, erase);
      if p < |region| {
        RollStep(region, p, image, cols, erase);
      } else {
        RollUp(region, image, cols, erase);
        RowsOverStep(|image|, cols);
        MulAdd(RowsOver(|image| - cols, cols), 1, cols);
      }
    }
  }

  lemma TypeOneIs(region: seq<int>, p: nat, v: int, cols: nat, erase: int)
    requires 0 < cols <= |region| && p <= |region|
    ensures TypeOne(region, p, v, cols, erase).1 == if p < |region| then p + 1 else p - cols + 1
    ensures p < |region| ==> TypeOne(region, p, v, cols, erase).0 == region[p := v]
  {
  }

  lemma NothingTyped(region: seq<int>, p: nat, cols: nat, erase: int)
    requires 0 < cols <= |region| && p <= |region|
    ensures EndOfRoll(region, p, [], cols, erase) == region && RowsOver(p - |region|, cols) == 0
  {
    assert region[..p] + [] + region[p..] == region;
  }

  // ---- the console ----

  /** Typing with the cursor inside the margins. */
  ghost predicate TypingInside(d: Driver, s: State) {
    Inv(d, s) && Typing(s.vc) && s.vc.top <= s.vc.cur.y < s.vc.bottom
  }

  function Lo(d: Driver, vc: Vc): int {
    vc.top * d.cols
  }

  function Hi(d: Driver, vc: Vc): int {
    vc.bottom * d.cols
  }

  lemma RegionSize(d: Driver, s: State)
    requires TypingInside(d, s)
    ensures 0 < d.cols && 0 <= Lo(d, s.vc) && Lo(d, s.vc) + d.cols <= Hi(d, s.vc) <= |s.cells|
    ensures Lo(d, s.vc) + d.cols < Hi(d, s.vc) <==> s.vc.top + 1 < s.vc.bottom
    ensures Lo(d, s.vc) <= NextCell(d, s.vc.cur) <= Hi(d, s.vc)
    ensures NextCell(d, s.vc.cur) == Hi(d, s.vc) ==> s.vc.cur.needWrap && s.vc.cur.y == s.vc.bottom - 1
  {
    hide Inv, VcOk, DriverOk, Here;
    InvParts(d, s);
    RowsPositive(d);
    HereIs(d, s.vc.cur);
    var (t, b, y, c) := (s.vc.top, s.vc.bottom, s.vc.cur.y, d.cols);
    MulLe(0, t, c);
    MulLe(t + 1, b, c);
    MulAdd(t, 1, c);
    if t + 1 < b {
      MulLe(t + 2, b, c);
      MulAdd(t, 2, c);
    }
    MulLe(b, d.rows, c);
    MulLe(t, y, c);
    MulLe(y + 1, b, c);
    MulAdd(y, 1, c);
    if y + 1 < b {
      MulLe(y + 2, b, c);
      MulAdd(y, 2, c);
    }
  }

  /** The region's cells and the place in it where the next glyph goes. */
  function Region(d: Driver, s: State): seq<int>
    requires 0 <= Lo(d, s.vc) <= Hi(d, s.vc) <= |s.cells|
  {
    s.cells[Lo(d, s.vc)..Hi(d, s.vc)]
  }

  lemma RegionLength(d: Driver, s: State)
    ensures 0 <= Lo(d, s.vc) <= Hi(d, s.vc) <= |s.cells| ==> |Region(d, s)| == Hi(d, s.vc) - Lo(d, s.vc)
  {
  }

  /** The rows outside the region. */
  function Around(d: Driver, s: State, region: seq<int>): seq<int>
    requires 0 <= Lo(d, s.vc) <= Hi(d, s.vc) <= |s.cells|
  {
    s.cells[..Lo(d, s.vc)] + region + s.cells[Hi(d, s.vc)..]
  }

  /** What typing one glyph does, in terms of the region. */
  ghost predicate Typed(d: Driver, s: State, r: State, region: seq<int>, p: int)
    requires 0 <= Lo(d, s.vc) <= Hi(d, s.vc) <= |s.cells|
  {
    TypingInside(d, r) && r.vc == s.vc.(cur := r.vc.cur) && r.cells == Around(d, s, region) &&
    NextCell(d, r.vc.cur) == Lo(d, s.vc) + p
  }

  /** A new line on the bottom margin. */
  lemma NewLineScrolls(d: Driver, s: State)
    requires TypingInside(d, s) && s.vc.cur.y == s.vc.bottom - 1
    ensures 0 <= Lo(d, s.vc) && Lo(d, s.vc) + d.cols <= Hi(d, s.vc) <= |s.cells| && 0 < d.cols
    ensures var r := NewLine(d, s);
            r.vc.cur.x == 0 && r.vc.cur.y == s.vc.cur.y && !r.vc.cur.needWrap &&
            r.cells == if s.vc.top + 1 < s.vc.bottom then ShiftUp(s.cells, Lo(d, s.vc), Hi(d, s.vc), d.cols, s.vc.erase) else s.cells
  {
    hide Inv, VcOk, DriverOk, Size, ShiftUp;
    RegionSize(d, s);
    InvParts(d, s);
    LinesFit(d, s.vc.top, s.vc.bottom, 1);
    if s.vc.top + 1 < s.vc.bottom {
      assert Lines(d, s.vc.top, s.vc.bottom, 1) == 1;
    } else {
      ShiftNothing(s.cells, Lo(d, s.vc), Hi(d, s.vc), s.vc.erase);
    }
  }

  lemma PutInside(d: Driver, s: State, glyph: int)
    requires TypingInside(d, s) && NextCell(d, s.vc.cur) < Hi(d, s.vc)
    ensures 0 <= Lo(d, s.vc) < Hi(d, s.vc) <= |s.cells| && Lo(d, s.vc) <= NextCell(d, s.vc.cur)
    ensures var p := NextCell(d, s.vc.cur) - Lo(d, s.vc);
            Typed(d, s, Put(d, s, glyph), Region(d, s)[p := d.compose(s.vc.attr, glyph)], p + 1)
  {
    hide Inv, Put, Here;
    RegionSize(d, s);
    PutNext(d, s, glyph);
    var n, v, r := NextCell(d, s.vc.cur), d.compose(s.vc.attr, glyph), Put(d, s, glyph);
    InsideCells(s.cells, Lo(d, s.vc), Hi(d, s.vc), n, v);
    if n + 1 == Hi(d, s.vc) {
      EndNeedsWrap(d, s, glyph);
    }
    StillInside(d, s, r);
  }

  lemma InsideCells(cells: seq<int>, lo: nat, hi: nat, n: nat, v: int)
    requires lo <= n < hi <= |cells|
    ensures cells[n := v] == cells[..lo] + cells[lo..hi][n - lo := v] + cells[hi..]
  {
  }

  /** The next cell after one of the region is reached from a row of the region. */
  lemma StillInside(d: Driver, s: State, r: State)
    requires TypingInside(d, s) && Inv(d, r) && r.vc == s.vc.(cur := r.vc.cur)
    requires Lo(d, s.vc) < NextCell(d, r.vc.cur) <= Hi(d, s.vc) && (NextCell(d, r.vc.cur) == Hi(d, s.vc) ==> r.vc.cur.needWrap)
    ensures TypingInside(d, r)
  {
    hide Inv, VcOk, DriverOk, Here;
    InvParts(d, r);
    HereIs(d, r.vc.cur);
    var (t, b, y, c) := (s.vc.top, s.vc.bottom, r.vc.cur.y, d.cols);
    MulAdd(y, 1, c);
    if y < t {
      MulLe(y + 1, t, c);
    }
    if y >= b {
      MulLe(b, y, c);
    }
  }

  /** A pending wrap is what takes the next cell past the end of the region. */
  lemma EndNeedsWrap(d: Driver, s: State, glyph: int)
    requires TypingInside(d, s) && NextCell(d, s.vc.cur) + 1 == Hi(d, s.vc)
    ensures Put(d, s, glyph).vc.cur.needWrap
  {
    hide Inv, VcOk, DriverOk, Here, InsertCharacters;
    RegionSize(d, s);
    PutNext(d, s, glyph);
    PutRow(d, s, glyph);
    var r := Put(d, s, glyph);
    InvParts(d, r);
    HereIs(d, r.vc.cur);
    var (b, y, c) := (s.vc.bottom, r.vc.cur.y, d.cols);
    MulAdd(y, 1, c);
    MulLe(y + 1, b, c);
  }

  /** A glyph leaves the cursor in a row of the region. */
  lemma PutRow(d: Driver, s: State, glyph: int)
    requires TypingInside(d, s) && NextCell(d, s.vc.cur) < Hi(d, s.vc)
    ensures Put(d, s, glyph).vc.cur.y < s.vc.bottom
  {
    hide Inv, VcOk, DriverOk, Here, NewLine, Written, Advanced, InsertCharacters, CursorOk;
    WrapInside(d, s);
    if s.vc.cur.needWrap {
      NewLineMoves(d, s);
    }
    var s1 := if s.vc.cur.needWrap then NewLine(d, s) else s;
    var s2 := Written(d, s1, glyph);
    InvRest(d, s2);
    AdvancedRow(d, s2.vc);
  }

  lemma AdvancedRow(d: Driver, vc: Vc)
    requires VcOk(d, vc)
    ensures Advanced(d, vc).cur.y == vc.cur.y
  {
    hide VcOk;
  }

  /** A glyph past the end of the region: the region moves up, the glyph starts its last row. */
  lemma PutScrolls(d: Driver, s: State, glyph: int)
    requires TypingInside(d, s) && NextCell(d, s.vc.cur) == Hi(d, s.vc)
    ensures 0 <= Lo(d, s.vc) && Lo(d, s.vc) + d.cols <= Hi(d, s.vc) <= |s.cells| && 0 < d.cols
    ensures var (region, p) := TypeOne(Region(d, s), Hi(d, s.vc) - Lo(d, s.vc), d.compose(s.vc.attr, glyph), d.cols, s.vc.erase);
            Typed(d, s, Put(d, s, glyph), region, p)
  {
    hide Inv, VcOk, DriverOk, Here, Size, NewLine, Written, Advanced, InsertCharacters, CursorOk, ShiftUp, Lo, Hi;
    RegionSize(d, s);
    NewLineScrolls(d, s);
    var s1 := NewLine(d, s);
    var v := d.compose(s.vc.attr, glyph);
    WrittenAt(d, s1, glyph);
    var s2 := Written(d, s1, glyph);
    InvRest(d, s2);
    AdvancedAt(d, s2.vc);
    AdvancedRow(d, s2.vc);
    var r := Put(d, s, glyph);
    assert r == WithVc(d, s2, Advanced(d, s2.vc));
    SameMargins(d, s, s1);
    LastRowStarts(d, s1);
    ScrolledCells(s.cells, Lo(d, s.vc), Hi(d, s.vc), d.cols, v, s.vc.erase);
  }

  lemma LastRowStarts(d: Driver, s: State)
    requires Inv(d, s) && s.vc.cur.x == 0 && s.vc.cur.y == s.vc.bottom - 1
    ensures Here(d, s.vc.cur) == Hi(d, s.vc) - d.cols
  {
    hide Inv, VcOk, DriverOk, Here, Size;
    InvParts(d, s);
    HereIs(d, s.vc.cur);
    MulAdd(s.vc.cur.y, 1, d.cols);
  }

  lemma ScrolledCells(cells: seq<int>, lo: nat, hi: nat, cols: nat, v: int, erase: int)
    requires 0 < cols && lo + cols <= hi <= |cells|
    ensures (if lo + cols < hi then ShiftUp(cells, lo, hi, cols, erase) else cells)[hi - cols := v]
            == cells[..lo] + TypeOne(cells[lo..hi], hi - lo, v, cols, erase).0 + cells[hi..]
  {
    var w := cells[lo..hi];
    assert cells[lo + cols..hi] == w[cols..];
  }

  /** Text of any length, typed inside the margins: the region shows the end of the roll, the rows
      outside it stay, and the next glyph goes after the last one. */
  lemma {:induction false} TextScrolls(d: Driver, s: State, bs: seq<Utf8.byte>)
    requires TypingInside(d, s) && AllPrintable(d, bs)
    ensures 0 < d.cols && 0 <= Lo(d, s.vc) && Lo(d, s.vc) + d.cols <= Hi(d, s.vc) <= |s.cells|
    ensures Lo(d, s.vc) <= NextCell(d, s.vc.cur) <= Hi(d, s.vc)
    ensures var p := NextCell(d, s.vc.cur) - Lo(d, s.vc);
            var image := Image(d, s.vc.attr, bs);
            Typed(d, s, Run(d, s, bs), EndOfRoll(Region(d, s), p, image, d.cols, s.vc.erase),
                  p + |bs| - RowsOver(p + |bs| - |Region(d, s)|, d.cols) * d.cols)
  {
    hide *;
    RegionSize(d, s);
    RegionLength(d, s);
    TypesAll(d, s, bs);
    TypeAllIs(Region(d, s), NextCell(d, s.vc.cur) - Lo(d, s.vc), Image(d, s.vc.attr, bs), d.cols, s.vc.erase);
  }

  lemma {:induction false} TypesAll(d: Driver, s: State, bs: seq<Utf8.byte>)
    requires TypingInside(d, s) && AllPrintable(d, bs)
    ensures 0 < d.cols && 0 <= Lo(d, s.vc) && Lo(d, s.vc) + d.cols <= Hi(d, s.vc) <= |s.cells|
    ensures Lo(d, s.vc) <= NextCell(d, s.vc.cur) <= Hi(d, s.vc)
    ensures var (region, p) := TypeAll(Region(d, s), NextCell(d, s.vc.cur) - Lo(d, s.vc), Image(d, s.vc.attr, bs), d.cols, s.vc.erase);
            Typed(d, s, Run(d, s, bs), region, p)
    decreases |bs|
  {
    hide Inv, Step, Put, NextCell, Glyph, Printable, Lo, Hi, TypeOne;
    RegionSize(d, s);
    if |bs| == 0 {
      assert Image(d, s.vc.attr, bs) == [];
      AroundItself(d, s);
    } else {
      assert Printable(d, bs[0]);
      ShowsGlyph(d, s, bs[0]);
      var p, v := NextCell(d, s.vc.cur) - Lo(d, s.vc), d.compose(s.vc.attr, Glyph(d, bs[0]));
      var s1 := Step(d, s, bs[0]);
      TypeOneIs(Region(d, s), p, v, d.cols, s.vc.erase);
      if NextCell(d, s.vc.cur) < Hi(d, s.vc) {
        PutInside(d, s, Glyph(d, bs[0]));
      } else {
        PutScrolls(d, s, Glyph(d, bs[0]));
      }
      SameMargins(d, s, s1);
      AroundRegion(d, s, s1, TypeOne(Region(d, s), p, v, d.cols, s.vc.erase).0);
      TypesAll(d, s1, bs[1..]);
      ImageTail(d, s.vc.attr, bs);
      AroundTwice(d, s, s1, TypeOne(Region(d, s), p, v, d.cols, s.vc.erase).0,
                  TypeAll(Region(d, s1), NextCell(d, s1.vc.cur) - Lo(d, s1.vc), Image(d, s1.vc.attr, bs[1..]), d.cols, s1.vc.erase).0);
    }
  }

  lemma SameMargins(d: Driver, s: State, r: State)
    requires r.vc == s.vc.(cur := r.vc.cur)
    ensures Lo(d, r.vc) == Lo(d, s.vc) && Hi(d, r.vc) == Hi(d, s.vc)
  {
  }

  lemma ImageTail(d: Driver, attr: int, bs: seq<Utf8.byte>)
    requires |bs| > 0
    ensures Image(d, attr, bs)[1..] == Image(d, attr, bs[1..]) && Image(d, attr, bs)[0] == d.compose(attr, Glyph(d, bs[0]))
  {
    hide Glyph;
  }

  lemma AroundItself(d: Driver, s: State)
    requires 0 <= Lo(d, s.vc) <= Hi(d, s.vc) <= |s.cells|
    ensures Around(d, s, Region(d, s)) == s.cells
  {
  }

  lemma AroundRegion(d: Driver, s: State, r: State, region: seq<int>)
    requires 0 <= Lo(d, s.vc) <= Hi(d, s.vc) <= |s.cells| && |region| == Hi(d, s.vc) - Lo(d, s.vc)
    requires r.cells == Around(d, s, region) && Lo(d, r.vc) == Lo(d, s.vc) && Hi(d, r.vc) == Hi(d, s.vc)
    ensures |r.cells| == |s.cells| && Region(d, r) == region
  {
    hide Lo, Hi;
  }

  lemma AroundTwice(d: Driver, s: State, r: State, region: seq<int>, region': seq<int>)
    requires 0 <= Lo(d, s.vc) <= Hi(d, s.vc) <= |s.cells| && |region| == Hi(d, s.vc) - Lo(d, s.vc)
    requires r.cells == Around(d, s, region) && Lo(d, r.vc) == Lo(d, s.vc) && Hi(d, r.vc) == Hi(d, s.vc)
    ensures |r.cells| == |s.cells| && Around(d, r, region') == Around(d, s, region')
  {
    hide Lo, Hi;
    assert r.cells[..Lo(d, s.vc)] == s.cells[..Lo(d, s.vc)];
    assert r.cells[Hi(d, s.vc)..] == s.cells[Hi(d, s.vc)..];
  }
}
