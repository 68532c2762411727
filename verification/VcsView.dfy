/** The byte views of a console that /dev/vcs and /dev/vcsa present (drivers/char/vc_screen.c):
    /dev/vcs shows the low byte of each cell; /dev/vcsa shows four header bytes and then both
    bytes of each cell, low byte first. */
module VcsView {

  type Word = bv16

  type Byte = bv8

  const HEADER_SIZE: nat := 4

  function Lo(w: Word): Byte {
    (w & 0xFF) as Byte
  }

  function Hi(w: Word): Byte {
    (w >> 8) as Byte
  }

  function Join(lo: Byte, hi: Byte): Word {
    ((hi as Word) << 8) | (lo as Word)
  }

  lemma JoinParts(lo: Byte, hi: Byte)
    ensures Lo(Join(lo, hi)) == lo && Hi(Join(lo, hi)) == hi
  {
  }

  /** Replacing one byte of a word, as the source writes it with masks. */
  lemma MaskedParts(w: Word, c: Byte)
    ensures (w & 0xFF00) | (c as Word) == Join(c, Hi(w))
    ensures ((c as Word) << 8) | (w & 0xFF) == Join(Lo(w), c)
  {
  }

  // ---- flat views ----

  function CharBytes(cells: seq<Word>): (r: seq<Byte>)
    ensures |r| == |cells|
  {
    seq(|cells|, i requires 0 <= i < |cells| => Lo(cells[i]))
  }

  function CellBytes(cells: seq<Word>): (r: seq<Byte>)
    ensures |r| == 2 * |cells|
  {
    seq(2 * |cells|, k requires 0 <= k < 2 * |cells| => if k % 2 == 0 then Lo(cells[k / 2]) else Hi(cells[k / 2]))
  }

  /** v with the bytes from p on replaced by d. */
  function Patched(v: seq<Byte>, p: nat, d: seq<Byte>): (r: seq<Byte>)
    requires p + |d| <= |v|
    ensures |r| == |v|
  {
    v[..p] + d + v[p + |d|..]
  }

  lemma PatchedTwice(v: seq<Byte>, p: nat, d: seq<Byte>, e: seq<Byte>)
    requires p + |d| + |e| <= |v|
    ensures Patched(Patched(v, p, d), p + |d|, e) == Patched(v, p, d + e)
  {
  }

  lemma PatchedNothing(v: seq<Byte>, p: nat)
    requires p <= |v|
    ensures Patched(v, p, []) == v
  {
  }

  /** What a patch leaves readable: its own bytes back, and every byte outside it. */
  lemma PatchedReads(v: seq<Byte>, p: nat, d: seq<Byte>)
    requires p + |d| <= |v|
    ensures Patched(v, p, d)[p..p + |d|] == d
    ensures forall k :: 0 <= k < |v| && !(p <= k < p + |d|) ==> Patched(v, p, d)[k] == v[k]
  {
  }

  // ---- one cell rewritten ----

  lemma CellWritten(cells: seq<Word>, i: nat, lo: Byte, hi: Byte)
    requires i < |cells|
    ensures CellBytes(cells[i := Join(lo, hi)]) == Patched(CellBytes(cells), 2 * i, [lo, hi])
  {
    hide Join, Lo, Hi;
    JoinParts(lo, hi);
    var c' := cells[i := Join(lo, hi)];
    forall k | 0 <= k < 2 * |cells|
      ensures CellBytes(c')[k] == Patched(CellBytes(cells), 2 * i, [lo, hi])[k]
    {
      assert k / 2 == i <==> k == 2 * i || k == 2 * i + 1;
    }
  }

  lemma HighWritten(cells: seq<Word>, i: nat, hi: Byte)
    requires i < |cells|
    ensures CellBytes(cells[i := Join(Lo(cells[i]), hi)]) == Patched(CellBytes(cells), 2 * i + 1, [hi])
  {
    hide Join, Lo, Hi;
    CellWritten(cells, i, Lo(cells[i]), hi);
    assert CellBytes(cells)[2 * i] == Lo(cells[i]);
  }

  lemma LowWritten(cells: seq<Word>, i: nat, lo: Byte)
    requires i < |cells|
    ensures CellBytes(cells[i := Join(lo, Hi(cells[i]))]) == Patched(CellBytes(cells), 2 * i, [lo])
    ensures CharBytes(cells[i := Join(lo, Hi(cells[i]))]) == Patched(CharBytes(cells), i, [lo])
  {
    hide Join, Lo, Hi;
    CellWritten(cells, i, lo, Hi(cells[i]));
    JoinParts(lo, Hi(cells[i]));
    assert CellBytes(cells)[2 * i + 1] == Hi(cells[i]);
  }

  lemma CharSlice(cells: seq<Word>, i: nat, w: Word)
    requires i < |cells| && cells[i] == w
    ensures CharBytes(cells)[i] == Lo(w)
  {
    hide Lo;
  }

  lemma CellSlice(cells: seq<Word>, i: nat, w: Word)
    requires i < |cells| && cells[i] == w
    ensures CellBytes(cells)[2 * i..2 * i + 2] == [Lo(w), Hi(w)]
  {
    hide Lo, Hi;
  }

  /** The high bytes, which /dev/vcs neither shows nor changes. */
  function HighBytes(cells: seq<Word>): (r: seq<Byte>)
    ensures |r| == |cells|
  {
    seq(|cells|, i requires 0 <= i < |cells| => Hi(cells[i]))
  }

  lemma LowKeepsHigh(cells: seq<Word>, i: nat, lo: Byte)
    requires i < |cells|
    ensures HighBytes(cells[i := Join(lo, Hi(cells[i]))]) == HighBytes(cells)
  {
    hide Join, Lo, Hi;
    JoinParts(lo, Hi(cells[i]));
  }

  /** The cell bytes after d has been written to /dev/vcsa at p: bytes that fall on the header do
      not reach the cells. */
  function AttrPatched(bytes: seq<Byte>, p: nat, d: seq<Byte>): (r: seq<Byte>)
    requires p + |d| <= HEADER_SIZE + |bytes|
    ensures |r| == |bytes|
  {
    if HEADER_SIZE <= p then Patched(bytes, p - HEADER_SIZE, d)
    else if |d| <= HEADER_SIZE - p then bytes
    else Patched(bytes, 0, d[HEADER_SIZE - p..])
  }

  lemma AttrPatchedTwice(bytes: seq<Byte>, p: nat, d: seq<Byte>, e: seq<Byte>)
    requires p + |d| + |e| <= HEADER_SIZE + |bytes|
    ensures AttrPatched(AttrPatched(bytes, p, d), p + |d|, e) == AttrPatched(bytes, p, d + e)
  {
    hide Patched;
    if HEADER_SIZE <= p {
      PatchedTwice(bytes, p - HEADER_SIZE, d, e);
    } else {
      var k := HEADER_SIZE - p;
      if |d| <= k {
        PatchedNothing(bytes, 0);
        if |d| + |e| > k {
          assert (d + e)[k..] == e[k - |d|..];
        }
      } else {
        assert (d + e)[k..] == d[k..] + e;
        PatchedTwice(bytes, 0, d[k..], e);
      }
    }
  }

  /** Past the header, a write to /dev/vcsa patches the file itself; what was written reads back
      and no other byte of the file changes. */
  lemma AttrFilePatched(h: seq<Byte>, bytes: seq<Byte>, p: nat, d: seq<Byte>)
    requires |h| == HEADER_SIZE <= p && p + |d| <= HEADER_SIZE + |bytes|
    ensures h + AttrPatched(bytes, p, d) == Patched(h + bytes, p, d)
    ensures (h + AttrPatched(bytes, p, d))[p..p + |d|] == d
  {
    var q := p - HEADER_SIZE;
    assert (h + bytes)[..p] == h + bytes[..q];
    assert (h + bytes)[p + |d|..] == bytes[q + |d|..];
  }
}
