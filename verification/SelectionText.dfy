/** The text of a selection (drivers/char/selection.c:252-279): characters row by row, with the
    trailing blanks of each completed row replaced by one carriage return. */
module SelectionText {

  const SPACE: int := 32
  const CR: int := 13

  /** r without its trailing blanks. */
  function Stripped(r: seq<int>): (s: seq<int>)
    ensures |s| <= |r| && s == r[..|s|]
    ensures s == [] || s[|s| - 1] != SPACE
    ensures forall i :: |s| <= i < |r| ==> r[i] == SPACE
  {
    if |r| == 0 || r[|r| - 1] != SPACE then r else Stripped(r[..|r| - 1])
  }

  /** A completed row: its blanks at the end become one CR; without any it stays as it is. */
  function RowText(r: seq<int>): (s: seq<int>)
    ensures |s| <= |r|
  {
    if |Stripped(r)| < |r| then Stripped(r) + [CR] else r
  }

  /** The text of the characters t, the first of which stands in column `col`. */
  function Text(t: seq<int>, col: nat, cols: nat): (s: seq<int>)
    requires col < cols
    ensures |s| <= |t|
    decreases |t|
  {
    if |t| < cols - col then t
    else RowText(t[..cols - col]) + Text(t[cols - col..], 0, cols)
  }

  lemma StrippedSnoc(r: seq<int>, c: int)
    ensures Stripped(r + [c]) == if c != SPACE then r + [c] else Stripped(r)
  {
    assert (r + [c])[..|r|] == r;
  }

  lemma {:induction false} TextRow(t: seq<int>, row: seq<int>, col: nat, cols: nat)
    requires col < cols && |row| == cols - col
    ensures Text(row + t, col, cols) == RowText(row) + Text(t, 0, cols)
  {
    assert (row + t)[..cols - col] == row;
    assert (row + t)[cols - col..] == t;
  }

  /** After k characters: the completed rows have the text `done`, and `row` is what there is of
      the current row, which began in column `col`. */
  ghost predicate Progress(chars: seq<int>, first: nat, cols: nat, k: nat, done: seq<int>, row: seq<int>, col: nat) {
    && 0 < cols && k <= |chars| && col < cols
    && (first + k) % cols == col + |row| < cols && |done| + |row| <= k
    && Text(chars, first % cols, cols) == done + Text(row + chars[k..], col, cols)
  }

  lemma Begin(chars: seq<int>, first: nat, cols: nat)
    requires 0 < cols
    ensures Progress(chars, first, cols, 0, [], [], first % cols)
  {
    assert [] + chars[0..] == chars;
  }

  lemma Within(chars: seq<int>, first: nat, cols: nat, k: nat, done: seq<int>, row: seq<int>, col: nat)
    requires Progress(chars, first, cols, k, done, row, col) && k < |chars| && (first + k + 1) % cols != 0
    ensures Progress(chars, first, cols, k + 1, done, row + [chars[k]], col)
  {
    hide Text;
    RowEnd(first + k, cols);
    assert row + chars[k..] == row + [chars[k]] + chars[k + 1..];
  }

  lemma AtRowEnd(chars: seq<int>, first: nat, cols: nat, k: nat, done: seq<int>, row: seq<int>, col: nat)
    requires Progress(chars, first, cols, k, done, row, col) && k < |chars| && (first + k + 1) % cols == 0
    ensures Progress(chars, first, cols, k + 1, done + RowText(row + [chars[k]]), [], 0)
  {
    hide Text, RowText;
    RowEnd(first + k, cols);
    assert row + chars[k..] == row + [chars[k]] + chars[k + 1..];
    TextRow(chars[k + 1..], row + [chars[k]], col, cols);
    assert [] + chars[k + 1..] == chars[k + 1..];
  }

  /** The body of the copy loop. */
  method PutChar(buffer: array<int>, c: int, rowEnd: bool, bp: nat, obp: nat, ghost done: seq<int>, ghost row: seq<int>)
    returns (bp': nat, obp': nat)
    requires bp < buffer.Length && bp == |done| + |row| && obp == |done| + |Stripped(row)| && buffer[..bp] == done + row
    modifies buffer
    ensures bp' <= bp + 1 && buffer[..bp'] == done + if rowEnd then RowText(row + [c]) else row + [c]
    ensures obp' == if rowEnd then bp' else |done| + |Stripped(row + [c])|
  {
    StrippedSnoc(row, c);
    ghost var row' := row + [c];
    bp', obp' := bp, obp;
    buffer[bp'] := c;
    assert buffer[..bp + 1] == done + row';
    bp' := bp' + 1;
    if c != SPACE {
      obp' := bp';
    }
    if rowEnd {
      assert buffer[..obp'] == (done + row')[..obp'] == done + Stripped(row');
      if obp' != bp' {
        bp' := obp';
        buffer[bp'] := CR;
        bp' := bp' + 1;
        assert buffer[..bp'] == done + Stripped(row') + [CR];
      }
      obp' := bp';
    }
  }

  /** The copy loop.  `chars` are the selected characters, `first` the cell of the first one; the
      buffer has one byte per selected cell, and every write falls inside it. */
  method CopyText(chars: seq<int>, first: nat, cols: nat, buffer: array<int>) returns (length: nat)
    requires 0 < cols && buffer.Length == |chars|
    modifies buffer
    ensures length <= buffer.Length
    ensures buffer[..length] == Text(chars, first % cols, cols)
  {
    hide Text, Stripped, RowText;
    var bp, obp := 0, 0;
    ghost var done: seq<int>, row: seq<int>, col: nat := [], [], first % cols;
    Begin(chars, first, cols);
    StrippedNothing();
    for k := 0 to |chars|
      invariant Progress(chars, first, cols, k, done, row, col)
      invariant bp == |done| + |row| && obp == |done| + |Stripped(row)| && buffer[..bp] == done + row
    {
      var rowEnd := (first + k + 1) % cols == 0;
      bp, obp := PutChar(buffer, chars[k], rowEnd, bp, obp, done, row);
      if rowEnd {
        AtRowEnd(chars, first, cols, k, done, row, col);
        done, row, col := done + RowText(row + [chars[k]]), [], 0;
        assert done + row == done;
      } else {
        Within(chars, first, cols, k, done, row, col);
        row := row + [chars[k]];
      }
    }
    assert row + chars[|chars|..] == row;
    PartialRow(row, col, cols);
    length := bp;
  }

  lemma StrippedNothing()
    ensures Stripped([]) == []
  {
  }

  lemma PartialRow(row: seq<int>, col: nat, cols: nat)
    requires col + |row| < cols
    ensures Text(row, col, cols) == row
  {
  }

  function Column(i: nat, cols: nat): nat
    requires 0 < cols
  {
    i % cols
  }

  lemma ColumnIs(i: nat, cols: nat)
    requires 0 < cols
    ensures Column(i, cols) == i % cols <= i
  {
  }

  lemma ColumnBefore(i: nat, cols: nat)
    requires 0 < cols && Column(i, cols) > 0
    ensures i > 0 && Column(i - 1, cols) == Column(i, cols) - 1
  {
    RowEnd(i - 1, cols);
  }

  lemma RowEnd(i: nat, cols: nat)
    requires 0 < cols
    ensures (i + 1) % cols == if i % cols == cols - 1 then 0 else i % cols + 1
  {
    var q, r := i / cols, i % cols;
    if r == cols - 1 {
      assert i + 1 == (q + 1) * cols;
      ModIs(i + 1, q + 1, 0, cols);
    } else {
      ModIs(i + 1, q, r + 1, cols);
    }
  }

  lemma ModIs(i: nat, q: nat, r: nat, cols: nat)
    requires r < cols && i == q * cols + r
    ensures i % cols == r
  {
    var d := i / cols;
    MulGap(d, q, cols);
    MulGap(q, d, cols);
  }

  lemma MulMono(a: nat, b: nat, c: nat)
    ensures a <= b ==> a * c <= b * c
  {
  }

  lemma MulGap(a: nat, b: nat, c: nat)
    ensures a < b ==> a * c + c <= b * c
  {
    if a < b {
      assert (a + 1) * c <= b * c;
    }
  }
}
