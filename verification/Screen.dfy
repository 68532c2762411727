/** A text screen as a flat sequence of rows * cols words, the word operations of the console
    code on video memory, and what scrolling means for the cell at a row and column. */
module Screen {

  function Blank(n: nat, erase: int): (r: seq<int>)
    ensures |r| == n
  {
    seq(n, _ => erase)
  }

  /** Words lo..hi move n words towards the front; the freed end is erased. */
  function ShiftUp(s: seq<int>, lo: nat, hi: nat, n: nat, erase: int): (r: seq<int>)
    requires lo + n <= hi <= |s|
    ensures |r| == |s|
  {
    s[..lo] + s[lo + n..hi] + Blank(n, erase) + s[hi..]
  }

  /** Words lo..hi move n words towards the back; the freed start is erased. */
  function ShiftDown(s: seq<int>, lo: nat, hi: nat, n: nat, erase: int): (r: seq<int>)
    requires lo + n <= hi <= |s|
    ensures |r| == |s|
  {
    s[..lo] + Blank(n, erase) + s[lo..hi - n] + s[hi..]
  }

  // ---- rows and columns ----

  lemma MulLe(a: nat, b: nat, c: nat)
    requires a <= b
    ensures a * c <= b * c
  {
  }

  lemma MulAdd(a: int, b: int, c: int)
    ensures (a + b) * c == a * c + b * c
  {
  }

  lemma CellInRange(y: nat, x: nat, rows: nat, cols: nat)
    requires y < rows && x < cols
    ensures 0 <= y * cols + x < rows * cols && y * cols + x < (y + 1) * cols
  {
    MulLe(y + 1, rows, cols);
    MulAdd(y, 1, cols);
  }

  function Cell(s: seq<int>, cols: nat, y: nat, x: nat): int
    requires 0 <= y * cols + x < |s|
  {
    s[y * cols + x]
  }

  /** Scrolling lines t..b up by nr moves whole rows: the rows below come up, the last nr rows
      of the region are blank, everything outside the region stays. */
  lemma ScrollUpCell(s: seq<int>, rows: nat, cols: nat, t: nat, b: nat, nr: nat, erase: int, y: nat, x: nat)
    requires |s| == rows * cols && t + nr <= b <= rows && y < rows && x < cols
    ensures t * cols + nr * cols <= b * cols <= |s| && 0 <= y * cols + x < |s|
    ensures t <= y < b - nr ==> 0 <= (y + nr) * cols + x < |s|
    ensures Cell(ShiftUp(s, t * cols, b * cols, nr * cols, erase), cols, y, x)
            == if t <= y < b - nr then Cell(s, cols, y + nr, x)
               else if b - nr <= y < b then erase
               else Cell(s, cols, y, x)
  {
    RegionFits(rows, cols, t, b, nr);
    CellInRange(y, x, rows, cols);
    MulAdd(b - nr, nr, cols);
    if y < t {
      CellInRange(y, x, t, cols);
    } else if y < b - nr {
      CellInRange(y, x, b - nr, cols);
      CellInRange(y + nr, x, rows, cols);
      MulAdd(y, nr, cols);
      MulLe(t, y, cols);
    } else if y < b {
      MulLe(b - nr, y, cols);
      CellInRange(y, x, b, cols);
    } else {
      MulLe(b, y, cols);
    }
  }

  lemma ScrollDownCell(s: seq<int>, rows: nat, cols: nat, t: nat, b: nat, nr: nat, erase: int, y: nat, x: nat)
    requires |s| == rows * cols && t + nr <= b <= rows && y < rows && x < cols
    ensures t * cols + nr * cols <= b * cols <= |s| && 0 <= y * cols + x < |s|
    ensures t + nr <= y < b ==> 0 <= (y - nr) * cols + x < |s|
    ensures Cell(ShiftDown(s, t * cols, b * cols, nr * cols, erase), cols, y, x)
            == if t + nr <= y < b then Cell(s, cols, y - nr, x)
               else if t <= y < t + nr then erase
               else Cell(s, cols, y, x)
  {
    RegionFits(rows, cols, t, b, nr);
    CellInRange(y, x, rows, cols);
    MulAdd(t, nr, cols);
    if y < t {
      CellInRange(y, x, t, cols);
    } else if y < t + nr {
      CellInRange(y, x, t + nr, cols);
      MulLe(t, y, cols);
    } else if y < b {
      CellInRange(y - nr, x, rows, cols);
      MulAdd(y - nr, nr, cols);
      MulLe(t + nr, y, cols);
      CellInRange(y, x, b, cols);
    } else {
      MulLe(b, y, cols);
    }
  }

  lemma RegionFits(rows: nat, cols: nat, t: nat, b: nat, nr: nat)
    requires t + nr <= b <= rows
    ensures t * cols + nr * cols <= b * cols <= rows * cols
  {
    MulLe(t + nr, b, cols);
    MulLe(b, rows, cols);
    MulAdd(t, nr, cols);
  }

  // ---- word operations on video memory ----

  /** scr_memmovew: overlapping regions are allowed. */
  method MemmoveW(a: array<int>, dst: nat, src: nat, n: nat)
    requires dst + n <= a.Length && src + n <= a.Length
    modifies a
    ensures a[..] == Copied(old(a[..]), dst, src, n)
  {
    forall k | 0 <= k < n {
      a[dst + k] := a[src + k];
    }
  }

  /** Memory m after n of its words, from src on, have been copied to dst. */
  function Copied(m: seq<int>, dst: nat, src: nat, n: nat): (r: seq<int>)
    requires dst + n <= |m| && src + n <= |m|
    ensures |r| == |m|
  {
    m[..dst] + m[src..src + n] + m[dst + n..]
  }

  lemma CopiedStep(m: seq<int>, dst: nat, src: nat, n: nat)
    requires dst + n < |m| && src + n < |m| && dst <= src
    ensures Copied(m, dst, src, n)[src + n] == m[src + n]
    ensures Copied(m, dst, src, n)[dst + n := m[src + n]] == Copied(m, dst, src, n + 1)
  {
    assert m[src..src + n + 1] == m[src..src + n] + [m[src + n]];
    assert m[dst + n..] == [m[dst + n]] + m[dst + n + 1..];
  }

  /** scr_memcpyw, copying word by word upwards; the only use in the console code copies towards
      lower addresses, where an overlap does no harm. */
  method MemcpyW(a: array<int>, dst: nat, src: nat, n: nat)
    requires dst + n <= a.Length && src + n <= a.Length && dst <= src
    modifies a
    ensures a[..] == Copied(old(a[..]), dst, src, n)
  {
    ghost var m := a[..];
    for k := 0 to n
      invariant a[..] == Copied(m, dst, src, k)
    {
      hide *;
      CopiedStep(m, dst, src, k);
      assert a[src + k] == a[..][src + k];
      a[dst + k] := a[src + k];
    }
  }

  /** Memory m with n words from dst on set to c. */
  function Filled(m: seq<int>, dst: nat, n: nat, c: int): (r: seq<int>)
    requires dst + n <= |m|
    ensures |r| == |m|
  {
    m[..dst] + Blank(n, c) + m[dst + n..]
  }

  lemma FilledAt(m: seq<int>, dst: nat, n: nat, c: int, j: nat)
    requires dst + n <= |m| && j < |m|
    ensures Filled(m, dst, n, c)[j] == if dst <= j < dst + n then c else m[j]
  {
  }

  method MemsetW(a: array<int>, dst: nat, c: int, n: nat)
    requires dst + n <= a.Length
    modifies a
    ensures a[..] == Filled(old(a[..]), dst, n, c)
  {
    for k := 0 to n
      invariant forall i :: 0 <= i < dst || dst + k <= i < a.Length ==> a[i] == old(a[i])
      invariant forall i :: dst <= i < dst + k ==> a[i] == c
    {
      a[dst + k] := c;
    }
  }

  // ---- scrolling in memory ----

  lemma ShiftUpAt(w: seq<int>, lo: nat, hi: nat, n: nat, c: int, j: nat)
    requires lo + n <= hi <= |w| && j < |w|
    ensures ShiftUp(w, lo, hi, n, c)[j] == if lo <= j < hi - n then w[j + n] else if hi - n <= j < hi then c else w[j]
  {
  }

  lemma ShiftDownAt(w: seq<int>, lo: nat, hi: nat, n: nat, c: int, j: nat)
    requires lo + n <= hi <= |w| && j < |w|
    ensures ShiftDown(w, lo, hi, n, c)[j] == if lo + n <= j < hi then w[j - n] else if lo <= j < lo + n then c else w[j]
  {
  }

  lemma UpAt(m: seq<int>, o: nat, lo: nat, hi: nat, n: nat, c: int, j: nat)
    requires lo + n <= hi && o + hi <= |m| && o + j < |m|
    ensures Filled(Copied(m, o + lo, o + lo + n, hi - lo - n), o + hi - n, n, c)[o + j]
            == if lo <= j < hi - n then m[o + j + n] else if hi - n <= j < hi then c else m[o + j]
  {
  }

  lemma DownAt(m: seq<int>, o: nat, lo: nat, hi: nat, n: nat, c: int, j: nat)
    requires lo + n <= hi && o + hi <= |m| && o + j < |m|
    ensures Filled(Copied(m, o + lo + n, o + lo, hi - lo - n), o + lo, n, c)[o + j]
            == if lo + n <= j < hi then m[o + j - n] else if lo <= j < lo + n then c else m[o + j]
  {
  }

  /** The software forms act inside the window and leave the window where it is. */
  lemma SoftUpWindow(m: seq<int>, o: nat, size: nat, lo: nat, hi: nat, n: nat, c: int)
    requires o + size <= |m| && lo + n <= hi <= size
    ensures Filled(Copied(m, o + lo, o + lo + n, hi - lo - n), o + hi - n, n, c)[o..o + size]
            == ShiftUp(m[o..o + size], lo, hi, n, c)
  {
    hide Copied, Filled, ShiftUp;
    var f := Filled(Copied(m, o + lo, o + lo + n, hi - lo - n), o + hi - n, n, c);
    var w := m[o..o + size];
    forall j | 0 <= j < size
      ensures f[o..o + size][j] == ShiftUp(w, lo, hi, n, c)[j]
    {
      assert f[o..o + size][j] == f[o + j];
      UpAt(m, o, lo, hi, n, c, j);
      ShiftUpAt(w, lo, hi, n, c, j);
    }
  }

  lemma SoftDownWindow(m: seq<int>, o: nat, size: nat, lo: nat, hi: nat, n: nat, c: int)
    requires o + size <= |m| && lo + n <= hi <= size
    ensures Filled(Copied(m, o + lo + n, o + lo, hi - lo - n), o + lo, n, c)[o..o + size]
            == ShiftDown(m[o..o + size], lo, hi, n, c)
  {
    hide Copied, Filled, ShiftDown;
    var f := Filled(Copied(m, o + lo + n, o + lo, hi - lo - n), o + lo, n, c);
    var w := m[o..o + size];
    forall j | 0 <= j < size
      ensures f[o..o + size][j] == ShiftDown(w, lo, hi, n, c)[j]
    {
      assert f[o..o + size][j] == f[o + j];
      DownAt(m, o, lo, hi, n, c, j);
      ShiftDownAt(w, lo, hi, n, c, j);
    }
  }

  /** Scrolls words lo..hi of the window at o up by n words. */
  method MoveUp(a: array<int>, o: nat, size: nat, lo: nat, hi: nat, n: nat, erase: int)
    requires o + size <= a.Length && lo + n <= hi <= size
    modifies a
    ensures a[..][o..o + size] == ShiftUp(old(a[..])[o..o + size], lo, hi, n, erase)
  {
    hide ShiftUp, Copied, Filled;
    SoftUpWindow(a[..], o, size, lo, hi, n, erase);
    MemmoveW(a, o + lo, o + lo + n, hi - lo - n);
    MemsetW(a, o + hi - n, erase, n);
  }

  /** Scrolls words lo..hi of the window at o down by n words. */
  method MoveDown(a: array<int>, o: nat, size: nat, lo: nat, hi: nat, n: nat, erase: int)
    requires o + size <= a.Length && lo + n <= hi <= size
    modifies a
    ensures a[..][o..o + size] == ShiftDown(old(a[..])[o..o + size], lo, hi, n, erase)
  {
    hide ShiftDown, Copied, Filled;
    SoftDownWindow(a[..], o, size, lo, hi, n, erase);
    MemmoveW(a, o + lo + n, o + lo, hi - lo - n);
    MemsetW(a, o + lo, erase, n);
  }

  lemma ShiftNothing(m: seq<int>, lo: nat, hi: nat, c: int)
    requires lo <= hi <= |m|
    ensures ShiftUp(m, lo, hi, 0, c) == m && ShiftDown(m, lo, hi, 0, c) == m
  {
    assert m[..lo] + m[lo..hi] + m[hi..] == m;
  }
}
