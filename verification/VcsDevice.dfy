/** vcs_read and vcs_write (drivers/char/vc_screen.c:50-77, 118-461), on a console that is on display or
    not: chunked through con_buf, row by row, with the soft cursor looked through at the cursor's cell.
    BUF_SIZE is the length of conBuf; the screen does not change while the console lock is dropped for a
    user copy. */
module VcsDevice {
  import opened Common
  import opened VcsView
  import opened VcsCursor
  import Screen

  const EINVAL: int := 22
  const EFAULT: int := 14

  function ByteOf(n: int): Byte {
    (n % 256) as Byte
  }

  /** When a coordinate reads back as the byte it was set from. */
  lemma ClampedByte(lo: nat, b: Byte, hi: nat)
    requires lo < hi
    ensures ByteOf(Clamp(lo, b as int, hi)) == b <==> b as int < hi && (lo <= b as int || b == ByteOf(lo))
  {
    hide ByteOf;
    ByteValue(b as int);
    ByteValue(Clamp(lo, b as int, hi));
    if b as int >= hi {
      ByteValue(hi - 1);
    }
  }

  lemma ByteValue(n: int)
    ensures 0 <= n < 256 ==> ByteOf(n) as int == n
  {
    if 0 <= n < 256 {
      assert n % 256 == n;
      assert ByteOf(n) == n as Byte;
    }
  }

  lemma HeaderKept(h: seq<Byte>, p: nat, d: seq<Byte>)
    requires |h| == HEADER_SIZE && (p >= HEADER_SIZE || d == [])
    ensures HeaderPatched(h, p, d) == h
  {
  }

  lemma {:induction false} OneMore(v: seq<Byte>, i: nat, j: nat)
    requires i <= j < |v|
    ensures v[i..j] + [v[j]] == v[i..j + 1]
  {
  }

  lemma {:induction false} TwoMore(front: seq<Byte>, v: seq<Byte>, i: nat, j: nat)
    requires i <= j && j + 2 <= |v|
    ensures front + v[i..j] + v[j..j + 2] == front + v[i..j + 2]
  {
  }

  lemma {:induction false} FromHeader(h: seq<Byte>, bytes: seq<Byte>, buf: seq<Byte>, n: nat, start: nat, k: nat)
    requires 2 * n <= |bytes| && buf == h + bytes[0..2 * n] && start + k <= |h| + 2 * n
    ensures buf[start..start + k] == (h + bytes)[start..start + k]
  {
    assert (h + bytes)[..|h| + 2 * n] == buf;
  }

  lemma {:induction false} SliceBehind(h: seq<Byte>, v: seq<Byte>, i: nat, j: nat)
    requires i <= j <= |v|
    ensures (h + v)[|h| + i..|h| + j] == v[i..j]
  {
  }

  lemma {:induction false} FromCells(h: seq<Byte>, bytes: seq<Byte>, buf: seq<Byte>, q: nat, n: nat, start: nat, k: nat)
    requires 2 * (q + n) <= |bytes| && buf == bytes[2 * q..2 * (q + n)] && start + k <= 2 * n
    ensures buf[start..start + k] == (h + bytes)[|h| + 2 * q + start..|h| + 2 * q + start + k]
  {
    var (i, j) := (2 * q + start, 2 * q + start + k);
    SliceOfSlice(bytes, 2 * q, 2 * (q + n), start, start + k);
    assert 2 * q + (start + k) == j;
    SliceBehind(h, bytes, i, j);
    assert |h| + i == |h| + 2 * q + start && |h| + j == |h| + 2 * q + start + k;
  }

  /** A cursor's place. */
  datatype Spot = Spot(x: nat, y: nat, pos: nat, needWrap: bool)

  class Device {
    const viewed: bool                   // on display
    const cells: array<Word>
    const rows: nat
    const cols: nat
    const top: nat
    const bottom: nat
    const decom: bool
    const conBuf: array<Byte>
    var x: nat
    var y: nat
    var pos: nat                         // vc_pos, the cursor's cell
    var needWrap: bool
    var cursorType: bv32
    var cursorOriginal: Option<Word>     // of the display: what its soft cursor covers, if it is drawn
    const front: Word                    // the word in the cursor's cell of the console on display, if another

    ghost predicate Valid()
      reads this
    {
      && 1 <= cols && cells.Length == rows * cols && pos < cells.Length && At(y, x) == pos
      && x < cols && y < rows && top < bottom <= rows
      && conBuf.Length % 2 == 0 && HEADER_SIZE < conBuf.Length
    }

    constructor (viewed: bool, cells: array<Word>, rows: nat, cols: nat, conBuf: array<Byte>, typ: bv32, cover: Option<Word>, front: Word)
      requires 1 <= rows && 1 <= cols && cells.Length == rows * cols && conBuf.Length % 2 == 0 && HEADER_SIZE < conBuf.Length
      ensures Valid() && fresh(this) && this.viewed == viewed && this.cells == cells && this.conBuf == conBuf
      ensures Place() == Spot(0, 0, 0, false) && cursorType == typ && cursorOriginal == cover && this.front == front
    {
      this.viewed, this.cells, this.rows, this.cols, this.conBuf := viewed, cells, rows, cols, conBuf;
      top, bottom, decom := 0, rows, false;
      x, y, pos, needWrap := 0, 0, 0, false;
      cursorType, cursorOriginal, this.front := typ, cover, front;
      new;
      Screen.CellInRange(0, 0, rows, cols);
    }

    function At(row: nat, col: nat): int {
      row * cols + col
    }

    /** The cells that the console has: on display, without the soft cursor. */
    ghost function Cells(): (r: seq<Word>)
      reads this`pos, this`cursorOriginal, cells
      requires pos < cells.Length
      ensures |r| == cells.Length
    {
      if viewed then Seen() else cells[..]
    }

    /** The cells as vcs_scr_readw gives them. */
    ghost function Seen(): (r: seq<Word>)
      reads this`pos, this`cursorOriginal, cells
      requires pos < cells.Length
      ensures |r| == cells.Length
    {
      SeenAt(cells[..], cursorOriginal, pos)
    }

    ghost function Header(): (r: seq<Byte>)
      reads this`x, this`y
      ensures |r| == HEADER_SIZE
    {
      [ByteOf(rows), ByteOf(cols), ByteOf(x), ByteOf(y)]
    }

    /** The file's contents: vcsa if attr, else vcs. */
    ghost function File(attr: bool): (r: seq<Byte>)
      reads this`pos, this`cursorOriginal, this`x, this`y, cells
      requires pos < cells.Length
      ensures |r| == VcsSize(attr)
    {
      FileBytes(attr, Header(), Cells())
    }

    /** The file as it is read. */
    ghost function SeenFile(attr: bool): (r: seq<Byte>)
      reads this`pos, this`cursorOriginal, this`x, this`y, cells
      requires pos < cells.Length
      ensures |r| == VcsSize(attr)
    {
      FileBytes(attr, Header(), Seen())
    }

    function VcsSize(attr: bool): nat {
      LowAt(attr, cells.Length)
    }

    function Column(p: nat): (c: nat)
      requires 1 <= cols
      ensures c < cols
    {
      p % cols
    }

    /** vcs_scr_readw */
    function ReadCell(org: nat): (w: Word)
      reads this`pos, this`cursorOriginal, cells
      requires org < cells.Length && pos < cells.Length
      ensures w == Seen()[org]
    {
      if org == pos && cursorOriginal.Some? then cursorOriginal.value else cells[org]
    }

    /** The inner loop for /dev/vcs: n cells from cell p on, one byte each. */
    method ReadCharRun(p: nat, n: nat)
      requires Valid() && p + n <= cells.Length && n <= conBuf.Length
      modifies conBuf
      ensures conBuf[..n] == CharBytes(Seen())[p..p + n]
    {
      hide Lo, CharBytes, Seen, Column;
      var org, col := p, Column(p);
      var next := p + cols - col;
      ghost var v := CharBytes(Seen());
      for k := 0 to n
        invariant org == p + k && col < cols && next == org + cols - col
        invariant v == CharBytes(Seen()) && conBuf[..k] == v[p..p + k]
      {
        var w := ReadCell(org);
        CharSlice(Seen(), org, w);
        PutOne(k, Lo(w));
        OneMore(v, p, p + k);
        org, col := org + 1, col + 1;
        if col == cols {
          org, col, next := next, 0, next + cols;
        }
      }
    }

    /** The inner loop for /dev/vcsa: n cells from cell p on, two bytes each, at offset off. */
    method ReadWordRun(off: nat, p: nat, n: nat)
      requires Valid() && p + n <= cells.Length && off + 2 * n <= conBuf.Length
      modifies conBuf
      ensures conBuf[..off + 2 * n] == old(conBuf[..off]) + CellBytes(Seen())[2 * p..2 * (p + n)]
    {
      hide Lo, Hi, CellBytes, Seen, Column;
      var org, col := p, Column(p);
      var next := p + cols - col;
      ghost var front, v := conBuf[..off], CellBytes(Seen());
      for k := 0 to n
        invariant org == p + k && col < cols && next == org + cols - col
        invariant v == CellBytes(Seen())
        invariant conBuf[..off + 2 * k] == front + v[2 * p..2 * (p + k)]
      {
        var w := ReadCell(org);
        CellSlice(Seen(), org, w);
        PutTwo(off + 2 * k, Lo(w), Hi(w));
        TwoMore(front, v, 2 * p, 2 * (p + k));
        org, col := org + 1, col + 1;
        if col == cols {
          org, col, next := next, 0, next + cols;
        }
      }
    }

    method PutOne(i: nat, a: Byte)
      requires i < conBuf.Length
      modifies conBuf
      ensures conBuf[..i + 1] == old(conBuf[..i]) + [a]
    {
      conBuf[i] := a;
    }

    method PutTwo(i: nat, a: Byte, b: Byte)
      requires i + 2 <= conBuf.Length
      modifies conBuf
      ensures conBuf[..i + 2] == old(conBuf[..i]) + [a, b]
    {
      conBuf[i], conBuf[i + 1] := a, b;
    }

    /** One round of vcs_read's loop: fills conBuf and says which part of it goes to the user. */
    method ReadChunk(attr: bool, pos0: nat, count: nat) returns (start: nat, origCount: nat)
      requires Valid() && 0 < count && pos0 + count <= VcsSize(attr)
      modifies conBuf
      ensures 0 < origCount <= count && start + origCount <= conBuf.Length
      ensures conBuf[start..start + origCount] == SeenFile(attr)[pos0..pos0 + origCount]
    {
      hide CharBytes, CellBytes, Seen, Header;
      var thisRound := Min(count, conBuf.Length);
      start, origCount := 0, thisRound;
      if !attr {
        ReadCharRun(pos0, thisRound);
        assert conBuf[0..thisRound] == conBuf[..thisRound];
      } else if pos0 < HEADER_SIZE {
        start, origCount := ReadFromHeader(pos0, count, thisRound);
      } else {
        start, origCount := ReadFromCells(pos0, count, thisRound);
      }
    }

    method PutHeader()
      requires conBuf.Length >= HEADER_SIZE
      modifies conBuf
      ensures conBuf[..4] == Header()
    {
      hide ByteOf;
      conBuf[0], conBuf[1] := ByteOf(rows), ByteOf(cols);
      conBuf[2], conBuf[3] := ByteOf(x), ByteOf(y);
    }

    /** A round that starts in the header. */
    method ReadFromHeader(p: nat, ghost count: nat, round: nat) returns (start: nat, origCount: nat)
      requires Valid() && p < HEADER_SIZE && round == Min(count, conBuf.Length) && 0 < count && p + count <= VcsSize(true)
      modifies conBuf
      ensures 0 < origCount <= count && start + origCount <= conBuf.Length
      ensures conBuf[start..start + origCount] == SeenFile(true)[p..p + origCount]
    {
      hide CellBytes, Seen, Header;
      PutHeader();
      var n;
      start, origCount, n := HeaderRound(p, count, round);
      if n > 0 {
        ReadWordRun(HEADER_SIZE, 0, n);
      }
      FromHeader(Header(), CellBytes(Seen()), conBuf[..4 + 2 * n], n, start, origCount);
      SubSlice(4 + 2 * n, start, origCount);
    }

    /** Sizes for a round that starts in the header: n cells follow it. */
    method HeaderRound(p: nat, ghost count: nat, round: nat) returns (start: nat, origCount: nat, n: nat)
      requires Valid() && p < HEADER_SIZE && round == Min(count, conBuf.Length) && 0 < count && p + count <= VcsSize(true)
      ensures 0 < origCount <= count && start == p && start + origCount <= 4 + 2 * n <= conBuf.Length && n <= cells.Length
    {
      var thisRound := round;
      origCount := thisRound;
      start := p;
      thisRound := thisRound + p;
      if thisRound > conBuf.Length {
        thisRound := conBuf.Length;
        origCount := thisRound - p;
      }
      var tmpCount := if HEADER_SIZE > thisRound then thisRound else HEADER_SIZE;
      thisRound := thisRound - tmpCount;
      n := (thisRound + 1) / 2;
    }

    lemma SubSlice(n: nat, start: nat, k: nat)
      requires start + k <= n <= conBuf.Length
      ensures conBuf[start..start + k] == conBuf[..n][start..start + k]
    {
    }

    /** A round that starts among the cells, possibly in the middle of one. */
    method ReadFromCells(p: nat, count: nat, round: nat) returns (start: nat, origCount: nat)
      requires Valid() && HEADER_SIZE <= p && round == Min(count, conBuf.Length) && 0 < count && p + count <= VcsSize(true)
      modifies conBuf
      ensures 0 < origCount <= count && start + origCount <= conBuf.Length
      ensures conBuf[start..start + origCount] == SeenFile(true)[p..p + origCount]
    {
      hide CellBytes, Header, Seen;
      var q, n;
      start, origCount, q, n := CellRound(p, count, round);
      ReadWordRun(0, q, n);
      assert old(conBuf[..0]) == [];
      FromCells(Header(), CellBytes(Seen()), conBuf[..2 * n], q, n, start, origCount);
      SubSlice(2 * n, start, origCount);
    }

    /** Sizes for a round from byte p: an odd start skips one byte of the first cell, if need be
        at the expense of the last one. */
    method CellRound(p: nat, ghost count: nat, round: nat) returns (start: nat, origCount: nat, q: nat, n: nat)
      requires Valid() && HEADER_SIZE <= p && round == Min(count, conBuf.Length) && 0 < count && p + count <= VcsSize(true)
      ensures 0 < origCount <= count && start + origCount <= 2 * n <= conBuf.Length && q + n <= cells.Length
      ensures p == HEADER_SIZE + 2 * q + start
    {
      var thisRound := round;
      start, origCount := 0, thisRound;
      if p % 2 == 1 {
        start := 1;
        if thisRound < conBuf.Length {
          thisRound := thisRound + 1;
        } else {
          origCount := origCount - 1;
        }
      }
      q := (p - HEADER_SIZE) / 2;
      n := (thisRound + 1) / 2;
    }

    /** The loop of vcs_read.  The user gets the requested slice of what is seen, however it is cut into
        rounds. */
    method ReadRounds(attr: bool, offset: int, count: nat, room: nat) returns (ret: int, out: seq<Byte>)
      requires Valid()
      modifies conBuf
      ensures offset < 0 ==> ret == -EINVAL && out == []
      ensures offset >= VcsSize(attr) ==> ret == 0 && out == []
      ensures 0 <= offset < VcsSize(attr) ==>
                var want := Min(count, VcsSize(attr) - offset);
                && out == SeenFile(attr)[offset..offset + Min(want, room)]
                && ret == if out != [] then |out| else if want == 0 then 0 else -EFAULT
    {
      hide SeenFile;
      out, ret := [], 0;
      if offset < 0 {
        return -EINVAL, [];
      }
      var p, left, free := offset, count, room;
      ghost var v := SeenFile(attr);
      while left > 0
        invariant Valid() && 0 <= left && p == offset + |out| && v == SeenFile(attr) && free == room - |out| >= 0
        invariant |out| > 0 ==> p <= VcsSize(attr)
        invariant offset >= VcsSize(attr) ==> |out| == 0
        invariant offset < VcsSize(attr) ==>
                    && p <= VcsSize(attr) && out == v[offset..p]
                    && Min(left, VcsSize(attr) - p) == Min(count, VcsSize(attr) - offset) - |out|
        decreases left
      {
        if p >= VcsSize(attr) {
          break;
        }
        if left > VcsSize(attr) - p {
          left := VcsSize(attr) - p;
        }
        var start, n := ReadChunk(attr, p, left);
        var copied := Min(n, free);
        Appended(out, v, conBuf[start..start + n], offset, p, n, copied);
        out := out + conBuf[start..start + n][..copied];
        if copied < n {
          ret := -EFAULT;
          break;
        }
        p, left, free := p + n, left - n, free - n;
      }
      if out != [] {
        ret := |out|;
      }
    }

    /** Whether a read of n bytes at p is of the console's own contents: on a console that is not on
        display, the word in its cursor's cell is taken from under the cursor of the one that is. */
    ghost predicate ReadsTrue(attr: bool, p: nat, n: nat)
      reads this`pos, this`cursorOriginal, cells
      requires pos < cells.Length
    {
      viewed || Agrees(attr, cells[pos], cursorOriginal, pos, p, n)
    }

    lemma ReadsTrueIff(attr: bool, p: nat, n: nat)
      requires pos < cells.Length && p + n <= VcsSize(attr)
      ensures SeenFile(attr)[p..p + n] == File(attr)[p..p + n] <==> ReadsTrue(attr, p, n)
    {
      hide FileBytes, SeenAt, Agrees;
      ReadIff(attr, Header(), cells[..], cursorOriginal, pos, p, n);
    }

    /** vcs_read.  `room` is how many bytes the user's buffer takes before it faults. */
    method VcsRead(attr: bool, offset: int, count: nat, room: nat) returns (ret: int, out: seq<Byte>)
      requires Valid()
      modifies conBuf
      ensures offset < 0 ==> ret == -EINVAL && out == []
      ensures offset >= VcsSize(attr) ==> ret == 0 && out == []
      ensures 0 <= offset < VcsSize(attr) ==>
                var want := Min(count, VcsSize(attr) - offset);
                var n := Min(want, room);
                && out == SeenFile(attr)[offset..offset + n]
                && (out == File(attr)[offset..offset + n] <==> ReadsTrue(attr, offset, n))
                && ret == if out != [] then |out| else if want == 0 then 0 else -EFAULT
    {
      hide File, SeenFile, ReadsTrue;
      ret, out := ReadRounds(attr, offset, count, room);
      if 0 <= offset < VcsSize(attr) {
        ReadsTrueIff(attr, offset, Min(Min(count, VcsSize(attr) - offset), room));
      }
    }

    /** add_softcursor: draw the cursor over its cell, remembering what it covers. */
    method AddSoftcursor()
      requires pos < cells.Length
      modifies this`cursorOriginal, cells
      ensures old(cursorOriginal).None? ==>
                cells[..] == old(cells[..])[pos := Drawn(cursorType, old(cells[pos]))]
                && cursorOriginal == Covering(cursorType, old(cells[pos]))
      ensures old(cursorOriginal).Some? ==> cells[..] == old(cells[..]) && cursorOriginal == old(cursorOriginal)
    {
      if cursorType & 0x10 == 0 {
        return;
      }
      if cursorOriginal.Some? {
        return;
      }
      cursorOriginal := Some(cells[pos]);
      cells[pos] := SoftCursor(cursorType, cells[pos]);
    }

    /** What writing has made of the cursor's cell and of what is remembered of it, once w0 and c0. */
    ghost predicate Touched(hit: bool, w0: Word, c0: Option<Word>)
      reads this`pos, this`cursorOriginal, this`cursorType, cells
      requires pos < cells.Length
    {
      Touch(hit, cursorType, w0, c0, cells[pos], cursorOriginal)
    }

    lemma TouchedTwice(a: bool, b: bool, w0: Word, c0: Option<Word>, w1: Word, c1: Option<Word>)
      requires pos < cells.Length && Touch(a, cursorType, w0, c0, w1, c1) && Touched(b, w1, c1)
      ensures Touched(a || b, w0, c0)
    {
      TouchTwice(a, b, cursorType, w0, c0, w1, c1, cells[pos], cursorOriginal);
    }

    lemma Untouched()
      requires pos < cells.Length
      ensures Touched(false, cells[pos], cursorOriginal)
    {
    }

    lemma TouchedMeans(hit: bool, w0: Word, c0: Option<Word>)
      requires pos < cells.Length
      ensures Touched(hit, w0, c0) <==> Touch(hit, cursorType, w0, c0, cells[pos], cursorOriginal)
    {
    }

    /** vcs_scr_writew: the cell that is seen takes the value; in the cursor's cell a soft cursor is drawn
        over it, and what was remembered is forgotten. */
    method WriteCell(org: nat, w: Word)
      requires Valid() && org < cells.Length
      modifies this`cursorOriginal, cells
      ensures Valid() && Seen() == old(Seen())[org := w]
      ensures Touched(org == pos, old(cells[pos]), old(cursorOriginal))
    {
      hide Drawn, At;
      CellsFit();
      ghost var c0, c := cells[..], cursorOriginal;
      cells[org] := w;
      assert cells[..] == c0[org := w];
      if org == pos {
        cursorOriginal := None;
        AddSoftcursor();
        assert cells[..] == c0[org := Drawn(cursorType, w)];
        UnderDrawn(cursorType, w);
      }
      assert Seen() == SeenAt(c0, c, pos)[org := w];
    }

    lemma SizeIs(attr: bool)
      ensures VcsSize(attr) == LowAt(attr, cells.Length)
    {
    }

    lemma BufferBig()
      requires Valid()
      ensures HEADER_SIZE < conBuf.Length
    {
    }

    lemma CellsFit()
      requires Valid()
      ensures pos < cells.Length && 1 <= cols
    {
    }

    /** Writes to /dev/vcs: low bytes from cell p on. */
    method WriteCharRun(p: nat, d: seq<Byte>)
      requires Valid() && p + |d| <= cells.Length
      modifies this`cursorOriginal, cells
      ensures Valid()
      ensures CharBytes(Seen()) == Patched(old(CharBytes(Seen())), p, d)
      ensures HighBytes(Seen()) == old(HighBytes(Seen()))
      ensures Touched(Within(pos, p, |d|), old(cells[pos]), old(cursorOriginal))
    {
      hide *;
      RunFacts(p);
      Untouched();
      ghost var v, h := CharBytes(Seen()), HighBytes(Seen());
      ghost var w0, c0 := cells[pos], cursorOriginal;
      PatchedNothing(v, p);
      NoneWithin(pos, p);
      var org, col := p, p % cols;
      var next := p + cols - col;
      for k := 0 to |d|
        invariant Valid() && org == p + k && col < cols && next == org + cols - col
        invariant CharBytes(Seen()) == Patched(v, p, d[..k]) && HighBytes(Seen()) == h
        invariant Touched(Within(pos, p, k), w0, c0)
      {
        ghost var l, w1, c1 := Seen(), cells[pos], cursorOriginal;
        TouchedMeans(Within(pos, p, k), w0, c0);
        var w := ReadCell(org);
        MaskedParts(w, d[k]);
        WriteCell(org, (w & 0xFF00) | (d[k] as Word));
        TouchedTwice(Within(pos, p, k), org == pos, w0, c0, w1, c1);
        OneMoreWithin(pos, p, k);
        LowWritten(l, org, d[k]);
        LowKeepsHigh(l, org, d[k]);
        PatchedTwice(v, p, d[..k], [d[k]]);
        assert d[..k + 1] == d[..k] + [d[k]];
        org, col := org + 1, col + 1;
        if col == cols {
          org, col, next := next, 0, next + cols;
        }
      }
      assert d[..|d|] == d;
    }

    lemma RunFacts(p: nat)
      requires Valid()
      ensures 1 <= cols && p % cols < cols && pos < cells.Length
    {
    }

    /** The low byte of a cell, as the trailing odd byte of a write. */
    method WriteLow(org: nat, c: Byte)
      requires Valid() && org < cells.Length
      modifies this`cursorOriginal, cells
      ensures Valid() && CellBytes(Seen()) == Patched(old(CellBytes(Seen())), 2 * org, [c])
      ensures Touched(org == pos, old(cells[pos]), old(cursorOriginal))
    {
      hide *;
      RunFacts(0);
      ghost var l := Seen();
      var w := ReadCell(org);
      MaskedParts(w, c);
      WriteCell(org, (w & 0xFF00) | (c as Word));
      LowWritten(l, org, c);
    }

    /** The high byte of a cell, as the leading odd byte of a write. */
    method WriteHigh(org: nat, c: Byte)
      requires Valid() && org < cells.Length
      modifies this`cursorOriginal, cells
      ensures Valid() && CellBytes(Seen()) == Patched(old(CellBytes(Seen())), 2 * org + 1, [c])
      ensures Touched(org == pos, old(cells[pos]), old(cursorOriginal))
    {
      hide *;
      RunFacts(0);
      ghost var l := Seen();
      var w := ReadCell(org);
      MaskedParts(w, c);
      WriteCell(org, ((c as Word) << 8) | (w & 0xFF));
      HighWritten(l, org, c);
    }

    /** Whole cells from cell p on, two bytes each; col is p's column. */
    method WriteWordRun(p: nat, d: seq<Byte>, n: nat)
      requires Valid() && p + n <= cells.Length && |d| == 2 * n
      modifies this`cursorOriginal, cells
      ensures Valid() && CellBytes(Seen()) == Patched(old(CellBytes(Seen())), 2 * p, d)
      ensures Touched(Within(pos, p, n), old(cells[pos]), old(cursorOriginal))
    {
      hide *;
      RunFacts(p);
      Untouched();
      ghost var v := CellBytes(Seen());
      ghost var w0, c0 := cells[pos], cursorOriginal;
      PatchedNothing(v, 2 * p);
      NoneWithin(pos, p);
      var org, col := p, p % cols;
      var next := p + cols - col;
      for k := 0 to n
        invariant Valid() && org == p + k && col < cols && next == org + cols - col
        invariant CellBytes(Seen()) == Patched(v, 2 * p, d[..2 * k])
        invariant Touched(Within(pos, p, k), w0, c0)
      {
        ghost var l, w1, c1 := Seen(), cells[pos], cursorOriginal;
        TouchedMeans(Within(pos, p, k), w0, c0);
        WriteCell(org, Join(d[2 * k], d[2 * k + 1]));
        TouchedTwice(Within(pos, p, k), org == pos, w0, c0, w1, c1);
        OneMoreWithin(pos, p, k);
        CellWritten(l, org, d[2 * k], d[2 * k + 1]);
        PatchedTwice(v, 2 * p, d[..2 * k], [d[2 * k], d[2 * k + 1]]);
        assert d[..2 * k + 2] == d[..2 * k] + [d[2 * k], d[2 * k + 1]];
        org, col := org + 1, col + 1;
        if col == cols {
          org, col, next := next, 0, next + cols;
        }
      }
      assert d[..|d|] == d;
    }

    /** From the start of cell q on, with a trailing low byte if |d| is odd. */
    method WriteFromCell(q: nat, d: seq<Byte>)
      requires Valid() && 2 * q + |d| <= 2 * cells.Length
      modifies this`cursorOriginal, cells
      ensures Valid() && CellBytes(Seen()) == Patched(old(CellBytes(Seen())), 2 * q, d)
      ensures Touched(Hits(true, HEADER_SIZE + 2 * q, |d|, pos), old(cells[pos]), old(cursorOriginal))
    {
      hide *;
      CellsFit();
      ghost var v := CellBytes(Seen());
      ghost var w0, c0 := cells[pos], cursorOriginal;
      var n := |d| / 2;
      WriteWordRun(q, d[..2 * n], n);
      if 2 * n < |d| {
        ghost var w1, c1 := cells[pos], cursorOriginal;
        TouchedMeans(Within(pos, q, n), w0, c0);
        WriteLow(q + n, d[2 * n]);
        TouchedTwice(Within(pos, q, n), q + n == pos, w0, c0, w1, c1);
        PatchedTwice(v, 2 * q, d[..2 * n], [d[2 * n]]);
        assert d[..2 * n] + [d[2 * n]] == d;
      } else {
        assert d[..2 * n] == d;
      }
      CellsHit(pos, q, |d|, n);
    }

    /** The cell part of a round of writes to /dev/vcsa: from byte p of the cells on, with a
        leading high byte if p is odd. */
    method WriteCellRun(p: nat, d: seq<Byte>)
      requires Valid() && p + |d| <= 2 * cells.Length && 0 < |d|
      modifies this`cursorOriginal, cells
      ensures Valid() && CellBytes(Seen()) == Patched(old(CellBytes(Seen())), p, d)
      ensures Touched(Hits(true, HEADER_SIZE + p, |d|, pos), old(cells[pos]), old(cursorOriginal))
    {
      hide *;
      CellsFit();
      if p % 2 == 0 {
        WriteFromCell(p / 2, d);
      } else {
        ghost var v := CellBytes(Seen());
        ghost var w0, c0 := cells[pos], cursorOriginal;
        WriteHigh(p / 2, d[0]);
        ghost var w1, c1 := cells[pos], cursorOriginal;
        TouchedMeans(p / 2 == pos, w0, c0);
        WriteFromCell(p / 2 + 1, d[1..]);
        TouchedTwice(p / 2 == pos, Hits(true, HEADER_SIZE + p + 1, |d| - 1, pos), w0, c0, w1, c1);
        LeadHits(pos, p, |d|);
        PatchedTwice(v, p, [d[0]], d[1..]);
        assert [d[0]] + d[1..] == d;
      }
    }

    // ---- a round of writing ----

    /** Byte k of the header as a write of d at p leaves it in the local copy. */
    function HeaderByte(k: nat, was: Byte, p: nat, d: seq<Byte>): Byte {
      if Within(k, p, |d|) then d[k - p] else was
    }

    function MinRow(): nat {
      if decom then top else 0
    }

    function MaxRow(): nat {
      if decom then bottom else rows
    }

    /** The cursor after a write of d at p: where its header bytes say, as near as it may go, if the
        console is not on display; bytes that are not written keep the low byte of their coordinate. */
    ghost predicate Placed(attr: bool, p: nat, d: seq<Byte>, was: Spot, now: Spot) {
      if attr && !viewed && p < HEADER_SIZE && d != [] then
        var (first, end) := if decom then (top, bottom) else (0, rows);
        0 < cols && first < end && now.x == Clamp(0, HeaderByte(2, ByteOf(was.x), p, d) as int, cols) &&
        now.y == Clamp(first, HeaderByte(3, ByteOf(was.y), p, d) as int, end) && now.pos == now.y * cols + now.x && !now.needWrap
      else now == was
    }

    ghost function Place(): Spot
      reads this`x, this`y, this`pos, this`needWrap
    {
      Spot(x, y, pos, needWrap)
    }

    /** putconsxy; the cursor of a console that is not on display is not drawn. */
    method PutConsXY(newX: int, newY: int)
      requires Valid()
      modifies this`x, this`y, this`pos, this`needWrap
      ensures Valid() && x == Clamp(0, newX, cols) && y == Clamp(MinRow(), newY, MaxRow()) && pos == y * cols + x && !needWrap
    {
      x, y := Clamp(0, newX, cols), Clamp(MinRow(), newY, MaxRow());
      Screen.CellInRange(y, x, rows, cols);
      pos := At(y, x);
      needWrap := false;
    }

    /** The bytes d have been written at p, relative to cells c0 of which c was remembered, the cursor being
        where it is now. */
    ghost predicate Written(attr: bool, c0: seq<Word>, c: Option<Word>, p: nat, d: seq<Byte>)
      reads this`pos, this`cursorOriginal, this`cursorType, cells
      requires pos < cells.Length == |c0| && p + |d| <= VcsSize(attr)
    {
      WrittenTo(attr, SeenAt(c0, c, pos), p, d, Seen()) && Touched(Hits(attr, p, |d|, pos), c0[pos], c)
    }

    /** One round of vcs_write.  Bytes that fall on the header move the cursor, or are dropped if the console
        is on display. */
    method WriteChunk(attr: bool, p: nat, d: seq<Byte>)
      requires Valid() && 0 < |d| && p + |d| <= VcsSize(attr)
      modifies this`cursorOriginal, this`x, this`y, this`pos, this`needWrap, cells
      ensures Valid() && Placed(attr, p, d, old(Place()), Place())
      ensures Written(attr, old(cells[..]), old(cursorOriginal), p, d)
    {
      hide Patched, CellBytes, CharBytes, HighBytes, SeenAt, Clamp, Touched, Hits, Valid, At;
      CellsFit();
      ghost var c0, c := cells[..], cursorOriginal;
      if !attr {
        WriteCharRun(p, d);
        CharHit(pos, p, |d|);
      } else if p < HEADER_SIZE {
        if !viewed {
          PutConsXY(HeaderByte(2, ByteOf(x), p, d) as int, HeaderByte(3, ByteOf(y), p, d) as int);
          CellsFit();
        }
        var skip := Min(HEADER_SIZE - p, |d|);
        if skip < |d| {
          WriteCellRun(0, d[skip..]);
        } else {
          Untouched();
        }
        HeaderHit(pos, p, |d|, skip);
      } else {
        WriteCellRun(p - HEADER_SIZE, d);
      }
    }

    // ---- the whole write ----

    /** vcs_write's loop. */
    method WriteRounds(attr: bool, offset: nat, left0: nat, data: seq<Byte>) returns (written: nat)
      requires Valid() && offset + left0 <= VcsSize(attr)
      modifies this`cursorOriginal, this`x, this`y, this`pos, this`needWrap, cells
      ensures written == Min(left0, |data|)
      ensures Valid() && Placed(attr, offset, data[..written], old(Place()), Place())
      ensures Written(attr, old(cells[..]), old(cursorOriginal), offset, data[..written])
    {
      hide *;
      CellsFit();
      BufferBig();
      ghost var was := Place();
      var left := left0;
      written := 0;
      assert data[..0] == [];
      WrittenNothing(attr, offset);
      while left > 0
        invariant Valid() && pos < cells.Length == |old(cells[..])| && 0 <= left && written + left == left0 && written <= |data|
        invariant Placed(attr, offset, data[..written], old(Place()), Place())
        invariant Written(attr, old(cells[..]), old(cursorOriginal), offset, data[..written])
        invariant written == 0 ==> cells[..] == old(cells[..]) && cursorOriginal == old(cursorOriginal)
        invariant written > 0 ==> HEADER_SIZE <= offset + written || left == 0 || written == |data|
        decreases left
      {
        var round := Min(left, conBuf.Length);
        var got := Min(round, |data| - written);
        if got == 0 {
          break;
        }
        WriteMore(attr, old(cells[..]), old(cursorOriginal), was, offset, data[..written], data[written..written + got],
                  offset + written);
        assert data[..written] + data[written..written + got] == data[..written + got];
        left, written := left - got, written + got;
      }
    }

    lemma WrittenNothing(attr: bool, p: nat)
      requires pos < cells.Length && p <= VcsSize(attr)
      ensures Written(attr, cells[..], cursorOriginal, p, []) && Placed(attr, p, [], Place(), Place())
    {
      hide SeenAt, WrittenTo, Seen;
      SeenIs();
      NothingWritten(attr, Seen(), p);
    }

    lemma SeenIs()
      requires pos < cells.Length
      ensures Seen() == SeenAt(cells[..], cursorOriginal, pos)
    {
    }

    method WriteMore(attr: bool, ghost c0: seq<Word>, ghost c: Option<Word>, ghost was: Spot, ghost p0: nat, ghost d: seq<Byte>,
                     e: seq<Byte>, p: nat)
      requires Valid() && 0 < |e| && p == p0 + |d| && p + |e| <= VcsSize(attr)
      requires pos < cells.Length == |c0| && Written(attr, c0, c, p0, d) && Placed(attr, p0, d, was, Place())
      requires if d == [] then cells[..] == c0 && cursorOriginal == c else HEADER_SIZE <= p
      modifies this`cursorOriginal, this`x, this`y, this`pos, this`needWrap, cells
      ensures Valid() && pos < cells.Length
      ensures Written(attr, c0, c, p0, d + e) && Placed(attr, p0, d + e, was, Place())
    {
      hide *;
      ghost var c1, o1, spot := cells[..], cursorOriginal, Place();
      WrittenMeans(attr, c0, c, p0, d);
      SamePlace(spot);
      WriteChunk(attr, p, e);
      CellsFit();
      PlacedTwice(attr, p0, d, e, was, spot, Place());
      if d == [] {
        assert d + e == e;
      } else {
        PlacedOnce(attr, p, e, spot, Place());
        SamePlace(spot);
        WrittenOn(attr, c0, c, p0, d, c1, o1, e);
      }
    }

    lemma WrittenMeans(attr: bool, c0: seq<Word>, c: Option<Word>, p: nat, d: seq<Byte>)
      requires pos < cells.Length == |c0| && p + |d| <= VcsSize(attr)
      ensures Written(attr, c0, c, p, d) <==>
              WrittenTo(attr, SeenAt(c0, c, pos), p, d, SeenAt(cells[..], cursorOriginal, pos)) &&
              Touch(Hits(attr, p, |d|, pos), cursorType, c0[pos], c, cells[pos], cursorOriginal)
    {
      hide SeenAt, WrittenTo, Hits, Touch;
    }

    /** Two writes one after the other, the cursor staying where it is. */
    lemma WrittenOn(attr: bool, c0: seq<Word>, c: Option<Word>, p: nat, d: seq<Byte>, c1: seq<Word>, o1: Option<Word>, e: seq<Byte>)
      requires pos < cells.Length == |c0| == |c1| && p + |d| + |e| <= VcsSize(attr)
      requires WrittenTo(attr, SeenAt(c0, c, pos), p, d, SeenAt(c1, o1, pos))
      requires Touch(Hits(attr, p, |d|, pos), cursorType, c0[pos], c, c1[pos], o1)
      requires Written(attr, c1, o1, p + |d|, e)
      ensures Written(attr, c0, c, p, d + e)
    {
      hide *;
      SizeIs(attr);
      WrittenMeans(attr, c1, o1, p + |d|, e);
      WrittenMeans(attr, c0, c, p, d + e);
      MoreWritten(attr, SeenAt(c0, c, pos), p, d, SeenAt(c1, o1, pos), e, SeenAt(cells[..], cursorOriginal, pos));
      TouchTwice(Hits(attr, p, |d|, pos), Hits(attr, p + |d|, |e|, pos), cursorType, c0[pos], c, c1[pos], o1, cells[pos], cursorOriginal);
      HitsBoth(attr, p, |d|, |e|, pos);
    }

    /** Two writes one after the other place the cursor as one does. */
    lemma PlacedTwice(attr: bool, p: nat, d: seq<Byte>, e: seq<Byte>, a: Spot, b: Spot, c: Spot)
      requires d == [] || HEADER_SIZE <= p + |d|
      requires Placed(attr, p, d, a, b) && Placed(attr, p + |d|, e, b, c)
      ensures Placed(attr, p, d + e, a, c)
    {
      hide At, Clamp;
      if d == [] {
        assert d + e == e;
      }
    }

    lemma PlacedOnce(attr: bool, p: nat, e: seq<Byte>, a: Spot, b: Spot)
      requires HEADER_SIZE <= p && Placed(attr, p, e, a, b)
      ensures a == b
    {
    }

    lemma SamePlace(a: Spot)
      ensures a == Place() ==> a.pos == pos
    {
    }

    // ---- what it does to the file ----

    /** Whether the cells come out as a write of d at p asks: always on display; else only if the write misses
        the cursor's cell, or the word drawn there is the one asked for. */
    ghost predicate CellsExact(attr: bool, w: Word, c: Option<Word>, p: nat, d: seq<Byte>)
      reads this`pos, this`cursorType
    {
      viewed || Harmless(attr, cursorType, w, c, pos, p, d)
    }

    /** Whether the header comes out as a write of d at p asks, from header h: on display it cannot change;
        else sizes must stay and the cursor must be able to go there. */
    ghost predicate HeaderExact(p: nat, d: seq<Byte>, h: seq<Byte>)
      requires |h| == HEADER_SIZE
    {
      p >= HEADER_SIZE || d == [] ||
      var h' := HeaderPatched(h, p, d);
      if viewed then h' == h
      else
        var (first, end) := if decom then (top, bottom) else (0, rows);
        h'[0] == ByteOf(rows) && h'[1] == ByteOf(cols) && h'[2] as int < cols && (h'[3] as int) < end &&
        (first <= h'[3] as int || h'[3] == ByteOf(first))
    }

    lemma CellsExactIff(attr: bool, c0: seq<Word>, c: Option<Word>, l: seq<Word>, p: nat, d: seq<Byte>)
      requires pos < cells.Length == |c0| == |l| && p + |d| <= VcsSize(attr) && Written(attr, c0, c, p, d)
      requires l == if viewed then SeenAt(c0, c, pos) else c0
      ensures WrittenTo(attr, l, p, d, Cells()) <==> CellsExact(attr, c0[pos], c, p, d)
      ensures !attr ==> CharBytes(Cells()) == Patched(CharBytes(l), p, d)
    {
      hide WrittenTo, SeenAt, Harmless, CharBytes, Patched, Hits, Touch;
      if viewed {
        if !attr {
          CharWrittenTo(l, p, d, Cells());
        }
      } else {
        WrittenIff(attr, cursorType, c0, c, cells[..], cursorOriginal, pos, p, d);
        if !attr {
          LowBytesWritten(cursorType, c0, c, cells[..], cursorOriginal, pos, p, d);
        }
      }
    }

    lemma HeaderExactIff(p: nat, d: seq<Byte>, was: Spot, h: seq<Byte>)
      requires Valid() && Placed(true, p, d, was, Place()) && was.x < cols && was.y < rows
      requires h == [ByteOf(rows), ByteOf(cols), ByteOf(was.x), ByteOf(was.y)]
      ensures Header() == HeaderPatched(h, p, d) <==> HeaderExact(p, d, h)
    {
      hide At, ByteOf, Clamp, HeaderPatched, Patched;
      if p < HEADER_SIZE && d != [] && !viewed {
        var h' := HeaderPatched(h, p, d);
        HeaderBytes(h, p, d);
        ClampedByte(0, h'[2], cols);
        ClampedByte(MinRow(), h'[3], MaxRow());
        assert 0 <= h'[2] as int;
      } else if p >= HEADER_SIZE || d == [] {
        HeaderKept(h, p, d);
      }
    }

    lemma HeaderBytes(h: seq<Byte>, p: nat, d: seq<Byte>)
      requires |h| == HEADER_SIZE && p < HEADER_SIZE
      ensures HeaderPatched(h, p, d)[2] == HeaderByte(2, h[2], p, d) && HeaderPatched(h, p, d)[3] == HeaderByte(3, h[3], p, d)
    {
    }

    lemma FileExactIff(p: nat, d: seq<Byte>, c0: seq<Word>, c: Option<Word>, l: seq<Word>, was: Spot, h: seq<Byte>)
      requires Valid() && Placed(true, p, d, was, Place()) && was.x < cols && was.y < rows
      requires h == [ByteOf(rows), ByteOf(cols), ByteOf(was.x), ByteOf(was.y)]
      requires pos < cells.Length == |c0| == |l| && p + |d| <= VcsSize(true) && Written(true, c0, c, p, d)
      requires l == if viewed then SeenAt(c0, c, pos) else c0
      ensures File(true) == Patched(FileBytes(true, h, l), p, d) <==> HeaderExact(p, d, h) && CellsExact(true, c0[pos], c, p, d)
    {
      hide CellBytes, FileBytes, File, HeaderExact, CellsExact, Written, Placed, Cells, Header, Valid, WrittenTo, SeenAt, Patched,
           AttrPatched, HeaderPatched, ByteOf;
      HeaderExactIff(p, d, was, h);
      CellsExactIff(true, c0, c, l, p, d);
      FileIs(true, h, l);
      FileIs(true, Header(), Cells());
      FileNow(true);
      FileSplit(h, CellBytes(l), Header(), CellBytes(Cells()), p, d);
      AttrWrittenTo(l, p, d, Cells());
    }

    lemma FileNow(attr: bool)
      requires pos < cells.Length
      ensures File(attr) == FileBytes(attr, Header(), Cells()) && |Cells()| == cells.Length
    {
    }

    lemma CellsAre()
      requires Valid()
      ensures pos < cells.Length && Cells() == (if viewed then SeenAt(cells[..], cursorOriginal, pos) else cells[..])
      ensures Place().x < cols && Place().y < rows && Place().pos == pos
      ensures Header() == [ByteOf(rows), ByteOf(cols), ByteOf(Place().x), ByteOf(Place().y)]
    {
    }

    lemma StaysOnDisplay(attr: bool, p: nat, d: seq<Byte>, a: Spot, b: Spot)
      requires Placed(attr, p, d, a, b)
      ensures viewed || !attr ==> a == b
    {
    }

    /** What a write of d at p has made of the file. */
    ghost predicate FileWritten(attr: bool, p: nat, d: seq<Byte>, c0: seq<Word>, c: Option<Word>, l: seq<Word>, h: seq<Byte>)
      reads this`x, this`y, this`pos, this`cursorOriginal, this`cursorType, cells
      requires pos < cells.Length == |c0| == |l| && p + |d| <= VcsSize(attr) && |h| == HEADER_SIZE
    {
      if attr then
        File(true) == Patched(FileBytes(true, h, l), p, d) <==> HeaderExact(p, d, h) && CellsExact(true, c0[pos], c, p, d)
      else
        File(false) == Patched(FileBytes(false, h, l), p, d) &&
        (HighBytes(Cells()) == HighBytes(l) <==> CellsExact(false, c0[pos], c, p, d))
    }

    lemma FileResult(attr: bool, p: nat, d: seq<Byte>, c0: seq<Word>, c: Option<Word>, l: seq<Word>, was: Spot, h: seq<Byte>)
      requires Valid() && Placed(attr, p, d, was, Place()) && was.x < cols && was.y < rows
      requires h == [ByteOf(rows), ByteOf(cols), ByteOf(was.x), ByteOf(was.y)]
      requires pos < cells.Length == |c0| == |l| && p + |d| <= VcsSize(attr) && Written(attr, c0, c, p, d)
      requires was.pos < |c0| && l == if viewed then SeenAt(c0, c, was.pos) else c0
      ensures FileWritten(attr, p, d, c0, c, l, h)
    {
      hide CharBytes, HighBytes, File, FileBytes, HeaderExact, CellsExact, Written, Placed, Cells, Header, Valid, WrittenTo, SeenAt,
           Patched, AttrPatched, ByteOf;
      StaysOnDisplay(attr, p, d, was, Place());
      CellsAre();
      if attr {
        FileExactIff(p, d, c0, c, l, was, h);
      } else {
        CellsExactIff(false, c0, c, l, p, d);
        CharWrittenTo(l, p, d, Cells());
        FileIs(false, h, l);
        FileIs(false, Header(), Cells());
        FileNow(false);
      }
    }

    /** Whether the word under the cursor of the console on display is still remembered, or on its screen,
        after a write of d at p to another one. */
    ghost predicate FrontExact(attr: bool, w: Word, c: Option<Word>, p: nat, d: seq<Byte>)
      reads this`pos, this`cursorType
    {
      !Hits(attr, p, |d|, pos) ||
      Under(Covering(cursorType, WordAfter(attr, Under(c, w), pos, p, d)), front) == Under(c, front)
    }

    lemma FrontExactIff(attr: bool, c0: seq<Word>, c: Option<Word>, p: nat, d: seq<Byte>)
      requires pos < cells.Length == |c0| && p + |d| <= VcsSize(attr) && Written(attr, c0, c, p, d)
      ensures Under(cursorOriginal, front) == Under(c, front) <==> FrontExact(attr, c0[pos], c, p, d)
    {
      hide WrittenTo, WordAfter, Hits, Covering, Drawn;
      WrittenCells(attr, SeenAt(c0, c, pos), p, d, Seen());
      assert AfterAt(attr, SeenAt(c0, c, pos), p, d, Seen(), pos);
    }

    /** What has been written reads back, if the header allows it. */
    lemma ReadsBack(attr: bool, p: nat, d: seq<Byte>, c0: seq<Word>, c: Option<Word>, was: Spot, h: seq<Byte>)
      requires Valid() && Placed(attr, p, d, was, Place()) && was.x < cols && was.y < rows
      requires h == [ByteOf(rows), ByteOf(cols), ByteOf(was.x), ByteOf(was.y)]
      requires pos < cells.Length == |c0| && p + |d| <= VcsSize(attr) && Written(attr, c0, c, p, d)
      requires attr ==> HeaderExact(p, d, h)
      ensures SeenFile(attr)[p..p + |d|] == d
    {
      hide CellBytes, CharBytes, HighBytes, HeaderExact, Placed, Header, Valid, SeenAt, Patched, AttrPatched, HeaderPatched, ByteOf;
      var l := SeenAt(c0, c, pos);
      if attr {
        HeaderExactIff(p, d, was, h);
        PatchedParts(h, CellBytes(l), p, d);
        PatchedReads(h + CellBytes(l), p, d);
      } else {
        PatchedReads(CharBytes(l), p, d);
      }
    }

    /** vcs_write.  `data` is what can be read of the user's `count` bytes before it faults.  On display the
        written bytes, and only they, change; on another console that is so exactly if its header and the
        word in its cursor's cell come out right, and the word under the cursor on display may be lost. */
    method VcsWrite(attr: bool, offset: int, count: nat, data: seq<Byte>) returns (ret: int)
      requires Valid() && |data| <= count
      modifies this`cursorOriginal, this`x, this`y, this`pos, this`needWrap, cells
      ensures Valid()
      ensures offset < 0 || offset > VcsSize(attr) ==> ret == -EINVAL && unchanged(this) && unchanged(cells)
      ensures 0 <= offset <= VcsSize(attr) ==>
                var want := Min(count, VcsSize(attr) - offset);
                var d := data[..Min(want, |data|)];
                && ret == (if d != [] || want == 0 then |d| else -EFAULT)
                && Placed(attr, offset, d, old(Place()), Place())
                && Written(attr, old(cells[..]), old(cursorOriginal), offset, d)
                && FileWritten(attr, offset, d, old(cells[..]), old(cursorOriginal), old(Cells()), old(Header()))
                && (Under(cursorOriginal, front) == old(Under(cursorOriginal, front)) <==>
                    FrontExact(attr, old(cells[..])[pos], old(cursorOriginal), offset, d))
    {
      hide *;
      CellsFit();
      if offset < 0 || offset > VcsSize(attr) {
        return -EINVAL;
      }
      ghost var c0, c, was, l, h := cells[..], cursorOriginal, Place(), Cells(), Header();
      CellsAre();
      var want := Min(count, VcsSize(attr) - offset);
      var n := WriteRounds(attr, offset, want, data);
      CellsFit();
      ret := if n > 0 || want == 0 then n else -EFAULT;
      FileResult(attr, offset, data[..n], c0, c, l, was, h);
      FrontExactIff(attr, c0, c, offset, data[..n]);
    }

    /** What is written is read back, whatever the chunks and whether or not the console is on display,
        unless the header does not allow it. */
    method WriteThenRead(attr: bool, offset: nat, data: seq<Byte>) returns (out: seq<Byte>)
      requires Valid() && offset + |data| <= VcsSize(attr)
      modifies this`cursorOriginal, this`x, this`y, this`pos, this`needWrap, cells, conBuf
      ensures Valid() && (!attr || HeaderExact(offset, data, old(Header())) ==> out == data)
      ensures FileWritten(attr, offset, data, old(cells[..]), old(cursorOriginal), old(Cells()), old(Header()))
    {
      hide *;
      CellsAre();
      ghost var c0, c, was, h := cells[..], cursorOriginal, Place(), Header();
      var ret := VcsWrite(attr, offset, |data|, data);
      assert data[..|data|] == data;
      CellsFit();
      if !attr || HeaderExact(offset, data, h) {
        ReadsBack(attr, offset, data, c0, c, was, h);
      }
      ret, out := VcsRead(attr, offset, |data|, |data|);
    }
  }

  /** How to see the wrong console: an A in the only cell of a console that is not on display, and a soft
      cursor over a B on the one that is; the A reads as a B. */
  method ForegroundShows() returns (dev: Device, out: seq<Byte>)
    ensures dev.Valid() && !dev.viewed && dev.File(false) == [0x41] && out == [0x42]
  {
    var cells := new Word[1] [0x0741];
    var conBuf := new Byte[6];
    dev := new Device(false, cells, 1, 1, conBuf, 0x7F0011, Some(0x0742), 0x7F42);
    assert cells[..] == [0x0741];
    var ret;
    ret, out := dev.VcsRead(false, 0, 1, 1);
  }

  /** And how to lose the B: a C written to the first console's cell is drawn with the cursor's attributes,
      and put under the cursor on display. */
  method ForegroundLost() returns (dev: Device)
    ensures dev.Valid() && !dev.viewed && dev.cells.Length == 1 && dev.cells[0] == 0x7F43 && dev.cursorOriginal == Some(0x0743)
  {
    hide Device.FileWritten, Device.Placed, Device.FrontExact, Device.Written;
    var cells := new Word[1] [0x0741];
    var conBuf := new Byte[6];
    dev := new Device(false, cells, 1, 1, conBuf, 0x7F0011, Some(0x0742), 0x7F42);
    assert cells[..] == [0x0741];
    ghost var place := dev.Place();
    var ret := dev.VcsWrite(false, 0, 1, [0x43]);
    assert [0x43][..1] == [0x43 as Byte];
    dev.CellsFit();
    dev.WrittenMeans(false, [0x0741], Some(0x0742), 0, [0x43]);
    DrawnOver(dev.cells[..], dev.cursorOriginal);
  }

  lemma DrawnOver(cells: seq<Word>, cover: Option<Word>)
    requires |cells| == 1
    requires WrittenTo(false, SeenAt([0x0741], Some(0x0742), 0), 0, [0x43], SeenAt(cells, cover, 0))
    requires Touch(Hits(false, 0, 1, 0), 0x7F0011, 0x0741, Some(0x0742), cells[0], cover)
    ensures cells[0] == 0x7F43 && cover == Some(0x0743)
  {
    hide WrittenTo, Drawn, Covering, WordAfter;
    var (l, l') := (SeenAt([0x0741], Some(0x0742), 0), SeenAt(cells, cover, 0));
    WrittenCells(false, l, 0, [0x43], l');
    assert AfterAt(false, l, 0, [0x43], l', 0);
    LetterC();
  }

  lemma LetterC()
    ensures WordAfter(false, 0x0742, 0, 0, [0x43]) == 0x0743
    ensures Drawn(0x7F0011, 0x0743) == 0x7F43 && Covering(0x7F0011, 0x0743) == Some(0x0743)
  {
  }

  lemma Appended(out: seq<Byte>, v: seq<Byte>, chunk: seq<Byte>, offset: nat, p: nat, n: nat, k: nat)
    requires offset <= p && p + n <= |v| && k <= n && out == v[offset..p] && chunk == v[p..p + n]
    ensures out + chunk[..k] == v[offset..p + k]
  {
  }
}
