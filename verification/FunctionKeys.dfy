/** The function-key string table of do_kdgkb_ioctl (drivers/char/vt_ioctl.c:208-310): all
    strings of func_table live back to back, NUL-terminated and in index order, in one buffer
    that is compacted in place and doubled when it runs out. */
module FunctionKeys {
  import opened Common

  const MAX_NR_FUNC: nat := 256

  /** sizeof(kbs->kb_string), the user's buffer. */
  const KB_STRING: nat := 512

  const EPERM: int := 1
  const ENOMEM: int := 12
  const EOVERFLOW: int := 75

  type FuncIndex = x: int | 0 <= x < 256

  /** Buffer bytes are only copied and compared with NUL; their width plays no role. */
  type Str = seq<int>

  /** The abstract table: for each function key, its string if it has one. */
  type Strings = seq<Option<Str>>

  ghost predicate NoNul(s: Str) {
    forall i :: 0 <= i < |s| ==> s[i] != 0
  }

  ghost predicate WellFormed(t: Strings) {
    |t| == MAX_NR_FUNC && forall i :: 0 <= i < |t| && t[i].Some? ==> NoNul(t[i].value)
  }

  /** The bytes one slot takes in the buffer. */
  function Piece(o: Option<Str>): Str {
    if o.Some? then o.value + [0] else []
  }

  /** The bytes of slots lo .. hi-1, in order. */
  function Flat(t: Strings, lo: nat, hi: nat): Str
    requires lo <= hi <= |t|
    decreases hi
  {
    if lo == hi then [] else Flat(t, lo, hi - 1) + Piece(t[hi - 1])
  }

  function Offset(t: Strings, i: nat): nat
    requires i <= |t|
  {
    |Flat(t, 0, i)|
  }

  lemma {:induction false} FlatSplit(t: Strings, lo: nat, mid: nat, hi: nat)
    requires lo <= mid <= hi <= |t|
    ensures Flat(t, lo, hi) == Flat(t, lo, mid) + Flat(t, mid, hi)
    decreases hi
  {
    if mid < hi {
      FlatSplit(t, lo, mid, hi - 1);
    }
  }

  lemma {:induction false} FlatSame(t: Strings, u: Strings, lo: nat, hi: nat)
    requires lo <= hi <= |t| && hi <= |u| && forall k :: lo <= k < hi ==> t[k] == u[k]
    ensures Flat(t, lo, hi) == Flat(u, lo, hi)
    decreases hi
  {
    if lo < hi {
      FlatSame(t, u, lo, hi - 1);
    }
  }

  lemma {:induction false} FlatEmpty(t: Strings, lo: nat, hi: nat)
    requires lo <= hi <= |t| && forall k :: lo <= k < hi ==> t[k].None?
    ensures Flat(t, lo, hi) == []
    decreases hi
  {
    if lo < hi {
      FlatEmpty(t, lo, hi - 1);
    }
  }

  lemma FlatOne(t: Strings, i: nat)
    requires i < |t|
    ensures Flat(t, i, i + 1) == Piece(t[i])
  {
    assert Flat(t, i, i + 1) == Flat(t, i, i) + Piece(t[i]);
  }

  /** The whole buffer, seen from slot i whose next occupied slot is j. */
  lemma FlatAround(t: Strings, i: nat, j: nat)
    requires i < j <= |t| && forall k :: i < k < j ==> t[k].None?
    ensures Flat(t, 0, j) == Flat(t, 0, i) + Piece(t[i])
    ensures Flat(t, 0, |t|) == Flat(t, 0, i) + Piece(t[i]) + Flat(t, j, |t|)
  {
    hide Flat, Piece;
    FlatSplit(t, 0, j, |t|);
    FlatSplit(t, 0, i, j);
    FlatSplit(t, i, i + 1, j);
    FlatEmpty(t, i + 1, j);
    FlatOne(t, i);
  }

  /** Slot j is the first after i that may be occupied. */
  ghost predicate Adjoins(t: Strings, i: nat, j: nat) {
    |t| == MAX_NR_FUNC && i < j <= MAX_NR_FUNC && forall k :: i < k < j ==> t[k].None?
  }

  /** The offsets from slot j on can move by delta. */
  ghost predicate Movable(t: Strings, j: nat, delta: int) {
    |t| == MAX_NR_FUNC && forall k :: j <= k < MAX_NR_FUNC && t[k].Some? ==> 0 <= Offset(t, k) + delta
  }

  ghost predicate NoneFrom(t: Strings, j: nat) {
    |t| == MAX_NR_FUNC && forall k :: j <= k < MAX_NR_FUNC ==> t[k].None?
  }

  /** Setting slot i moves the later strings as one block and nothing else. */
  lemma FlatUpdate(t: Strings, i: nat, j: nat, s: Str)
    requires i < j <= |t| && forall k :: i < k < j ==> t[k].None?
    ensures var u := t[i := Some(s)];
            && Flat(u, 0, |u|) == Flat(t, 0, i) + s + [0] + Flat(t, j, |t|)
            && (forall k :: 0 <= k <= i ==> Offset(u, k) == Offset(t, k))
            && (forall k :: j <= k <= |t| ==> Offset(u, k) == Offset(t, k) + |s| + 1 - |Piece(t[i])|)
  {
    var u := t[i := Some(s)];
    FlatAround(u, i, j);
    FlatSame(t, u, 0, i);
    FlatSame(t, u, j, |t|);
    assert Flat(t, 0, i) + (s + [0]) == Flat(t, 0, i) + s + [0];
    forall k | 0 <= k <= i
      ensures Offset(u, k) == Offset(t, k)
    {
      FlatSame(t, u, 0, k);
    }
    FlatAround(t, i, j);
    forall k | j <= k <= |t|
      ensures Offset(u, k) == Offset(t, k) + |s| + 1 - |Piece(t[i])|
    {
      FlatSplit(t, 0, j, k);
      FlatSplit(u, 0, j, k);
      FlatSame(t, u, j, k);
    }
  }

  /** Each occupied slot's bytes, found at its offset. */
  lemma FlatAt(t: Strings, i: nat)
    requires i < |t|
    ensures Offset(t, i) + |Piece(t[i])| <= Offset(t, |t|)
    ensures Flat(t, 0, |t|)[Offset(t, i)..Offset(t, i) + |Piece(t[i])|] == Piece(t[i])
  {
    FlatSplit(t, 0, i, |t|);
    FlatSplit(t, i, i + 1, |t|);
    assert Flat(t, i, i + 1) == Flat(t, i, i) + Piece(t[i]);
    var f := Flat(t, 0, |t|);
    assert f == Flat(t, 0, i) + (Piece(t[i]) + Flat(t, i + 1, |t|));
  }

  lemma OffsetMonotone(t: Strings, i: nat, j: nat)
    requires i <= j <= |t|
    ensures Offset(t, i) <= Offset(t, j)
  {
    FlatSplit(t, 0, i, j);
  }

  /** The sum of (length + 1) over the strings in the first n slots. */
  function Footprint(t: Strings, n: nat): nat
    requires n <= |t|
  {
    if n == 0 then 0 else Footprint(t, n - 1) + if t[n - 1].Some? then |t[n - 1].value| + 1 else 0
  }

  lemma {:induction false} OffsetIsFootprint(t: Strings, n: nat)
    requires n <= |t|
    ensures Offset(t, n) == Footprint(t, n)
  {
    if n > 0 {
      OffsetIsFootprint(t, n - 1);
    }
  }

  /** The table after a run of settings. */
  function Written(t: Strings, calls: seq<(FuncIndex, Str)>): (u: Strings)
    requires |t| == MAX_NR_FUNC
    ensures |u| == MAX_NR_FUNC
  {
    if |calls| == 0 then t
    else
      var c := calls[|calls| - 1];
      Written(t, calls[..|calls| - 1])[c.0 := Some(c.1)]
  }

  /** After any run, a slot holds what was last written to it, and a slot that was not written
      holds what it held before. */
  lemma {:induction false} LastWriteWins(t: Strings, calls: seq<(FuncIndex, Str)>, i: FuncIndex)
    requires |t| == MAX_NR_FUNC
    ensures (forall k :: 0 <= k < |calls| ==> calls[k].0 != i) ==> Written(t, calls)[i] == t[i]
    ensures forall k :: 0 <= k < |calls| && calls[k].0 == i && (forall l :: k < l < |calls| ==> calls[l].0 != i)
                        ==> Written(t, calls)[i] == Some(calls[k].1)
  {
    if |calls| > 0 {
      var n := |calls| - 1;
      var before := calls[..n];
      LastWriteWins(t, before, i);
      var u := Written(t, before);
      assert Written(t, calls)[i] == if calls[n].0 == i then Some(calls[n].1) else u[i];
      if forall k :: 0 <= k < n ==> calls[k].0 != i {
        assert forall k :: 0 <= k < n ==> before[k] == calls[k];
      }
      forall k | 0 <= k < |calls| && calls[k].0 == i && forall l :: k < l < |calls| ==> calls[l].0 != i
        ensures Written(t, calls)[i] == Some(calls[k].1)
      {
        if k < n {
          assert before[k] == calls[k];
          assert forall l :: k < l < n ==> before[l] == calls[l];
        }
      }
    }
  }

  // ---- C strings ----

  /** The bytes up to the first NUL. */
  function CString(s: Str): (r: Str)
    ensures |r| <= |s| && r == s[..|r|] && NoNul(r) && (|r| < |s| ==> s[|r|] == 0)
  {
    if |s| == 0 || s[0] == 0 then [] else [s[0]] + CString(s[1..])
  }

  lemma CStringPiece(s: Str, rest: Str)
    requires NoNul(s)
    ensures CString(s + [0] + rest) == s
  {
    var c := s + [0] + rest;
    var n := |CString(c)|;
    assert c[|s|] == 0;
    assert n > |s| ==> CString(c)[|s|] == c[|s|];
    assert forall k :: 0 <= k < |s| ==> c[k] == s[k];
    assert c[..|s|] == s;
  }

  /** A string found with its NUL in the first `used` bytes of a buffer. */
  lemma StringIn(m: Str, used: nat, p: nat, s: Str)
    requires NoNul(s) && p + |s| + 1 <= used <= |m|
    ensures m[..used][p..p + |s| + 1] == s + [0] ==> m[p..p + |s|] == s && m[p + |s|] == 0 && CString(m[p..]) == s
  {
    hide CString;
    var piece := m[..used][p..p + |s| + 1];
    if piece == s + [0] {
      var q := p + |s| + 1;
      assert piece == m[p..q];
      assert m[p..q][|s|] == 0 && m[p..q][..|s|] == s;
      assert m[p..] == m[p..q] + m[q..];
      CStringPiece(s, m[p + |s| + 1..]);
    }
  }

  /** s is what stands in kb from its first byte up to a NUL, or up to byte 511 if there is none before. */
  ghost predicate Terminated(kb: Str, s: Str) {
    |s| <= 511 <= |kb| && s == kb[..|s|] && NoNul(s) && (|s| < 511 ==> kb[|s|] == 0)
  }

  lemma NoNulBefore(kb: Str, s: Str)
    requires Terminated(kb, s)
    ensures forall k :: 0 <= k < |s| ==> kb[k] != 0
  {
    assert forall k :: 0 <= k < |s| ==> kb[k] == s[k];
  }

  /** There is one such string only. */
  lemma TerminatedOnce(kb: Str, s: Str, s': Str)
    requires Terminated(kb, s) && Terminated(kb, s')
    ensures s == s'
  {
    NoNulBefore(kb, s);
    NoNulBefore(kb, s');
  }

  /** What the ioctl makes of the user's 512 bytes: the last one is forced to NUL. */
  function UserString(kb: Str): (r: Str)
    requires |kb| == KB_STRING
    ensures Terminated(kb, r)
  {
    CString(kb[..KB_STRING - 1])
  }

  lemma CStringStep(s: Str)
    requires |s| > 0
    ensures |CString(s)| == if s[0] == 0 then 0 else 1 + |CString(s[1..])|
  {
  }

  method Strlen(a: array<int>, p: nat) returns (n: nat)
    requires p <= a.Length && exists k :: p <= k < a.Length && a[k] == 0
    ensures p + n < a.Length && a[p + n] == 0 && n == |CString(a[p..])|
  {
    hide CString;
    ghost var k :| p <= k < a.Length && a[k] == 0;
    n := 0;
    while a[p + n] != 0
      invariant p + n <= k
      invariant |CString(a[p..])| == n + |CString(a[p + n..])|
      decreases k - n
    {
      CStringStep(a[p + n..]);
      assert a[p + n..][1..] == a[p + n + 1..];
      n := n + 1;
    }
    CStringStep(a[p + n..]);
  }

  method Strcpy(a: array<int>, p: nat, s: Str)
    requires p + |s| < a.Length
    modifies a
    ensures a[..p] == old(a[..p]) && a[p..p + |s| + 1] == s + [0]
    ensures a[p + |s| + 1..] == old(a[p + |s| + 1..])
  {
    for k := 0 to |s|
      invariant a[..p] == old(a[..p]) && a[p..p + k] == s[..k]
      invariant a[p + |s| + 1..] == old(a[p + |s| + 1..])
    {
      a[p + k] := s[k];
      assert a[p..p + k + 1] == a[p..p + k] + [s[k]];
    }
    a[p + |s|] := 0;
    assert a[p..p + |s| + 1] == a[p..p + |s|] + [0];
  }

  /** memmove between or within arrays: the source bytes are those before the call. */
  method Memmove(d: array<int>, dst: nat, a: array<int>, src: nat, n: nat)
    requires dst + n <= d.Length && src + n <= a.Length
    modifies d
    ensures d[..dst] == old(d[..dst]) && d[dst..dst + n] == old(a[src..src + n])
    ensures d[dst + n..] == old(d[dst + n..])
  {
    forall k | 0 <= k < n {
      d[dst + k] := a[src + k];
    }
  }

  /** A string and its NUL between what precedes and what follows it. */
  function Joined(head: Str, s: Str, tail: Str): Str {
    head + s + [0] + tail
  }

  ghost function Slice(a: array<int>, lo: nat, hi: nat): Str
    reads a
    requires lo <= hi <= a.Length
  {
    a[lo..hi]
  }

  /** Write s and its NUL at p, keeping the bytes on both sides. */
  method PutString(a: array<int>, p: nat, s: Str, ghost e: nat)
    requires p + |s| + 1 <= e <= a.Length
    modifies a
    ensures Slice(a, 0, e) == Joined(old(Slice(a, 0, p)), s, old(Slice(a, p + |s| + 1, e)))
  {
    hide Joined;
    ghost var head, tail := a[..p], a[p + |s| + 1..e];
    ghost var rest := a[p + |s| + 1..];
    Strcpy(a, p, s);
    assert a[p + |s| + 1..e] == rest[..|tail|];
    Assemble(a[..e], head, s, tail);
  }

  /** Move the bytes fj..firstFree by delta, then write s and its NUL before them. */
  method MakeRoom(a: array<int>, p: nat, fj: nat, firstFree: nat, delta: int, s: Str)
    requires fj <= firstFree <= a.Length && p + |s| + 1 == fj + delta && firstFree + delta <= a.Length && p <= fj
    modifies a
    ensures Slice(a, 0, firstFree + delta) == Joined(old(Slice(a, 0, p)), s, old(Slice(a, fj, firstFree)))
  {
    hide Joined;
    Memmove(a, fj + delta, a, fj, firstFree - fj);
    assert a[..p] == a[..fj + delta][..p];
    assert old(a[..p]) == old(a[..fj + delta])[..p];
    PutString(a, p, s, firstFree + delta);
  }

  lemma Assemble(b: Str, head: Str, s: Str, tail: Str)
    requires |b| == |head| + |s| + 1 + |tail|
    requires b[..|head|] == head && b[|head|..|head| + |s| + 1] == s + [0] && b[|head| + |s| + 1..] == tail
    ensures b == Joined(head, s, tail)
  {
    assert b == b[..|head|] + b[|head|..|head| + |s| + 1] + b[|head| + |s| + 1..];
  }

  /** The two copies into the larger buffer: what precedes the string, and what follows it. */
  method CopyEnds(d: array<int>, a: array<int>, fj: nat, firstFree: nat, delta: int)
    requires fj <= firstFree <= a.Length && 0 <= delta && firstFree + delta <= d.Length && d != a
    modifies d
    ensures d[..fj] == a[..fj] && d[fj + delta..firstFree + delta] == a[fj..firstFree]
  {
    if fj > 0 {
      Memmove(d, 0, a, 0, fj);
    }
    ghost var front := d[..fj + delta];
    assert front[..fj] == a[..fj];
    if firstFree > fj {
      Memmove(d, fj + delta, a, fj, firstFree - fj);
    }
    assert d[..fj] == front[..fj];
  }

  /** The same result in a larger buffer d. */
  method Rebuild(d: array<int>, a: array<int>, p: nat, fj: nat, firstFree: nat, delta: int, s: Str)
    requires fj <= firstFree <= a.Length && p + |s| + 1 == fj + delta && firstFree + delta <= d.Length && p <= fj
    requires 0 <= delta && d != a
    modifies d
    ensures Slice(d, 0, firstFree + delta) == Joined(Slice(a, 0, p), s, Slice(a, fj, firstFree))
  {
    hide Joined;
    CopyEnds(d, a, fj, firstFree, delta);
    assert d[..p] == d[..fj][..p];
    assert a[..p] == a[..fj][..p];
    ghost var head, tail := a[..p], a[fj..firstFree];
    PutString(d, p, s, firstFree + delta);
  }

  // ---- the table ----

  class KeyTable {
    var buf: array<int>             // funcbufptr
    var size: int                    // funcbufsize
    var left: int                    // funcbufleft
    const table: array<Option<nat>>  // func_table, as offsets from funcbufptr
    ghost var strings: Strings

    ghost predicate TableOf(t: Strings)
      reads table
      requires |t| == MAX_NR_FUNC
    {
      table.Length == MAX_NR_FUNC
      && forall k :: 0 <= k < MAX_NR_FUNC ==> table[k] == if t[k].Some? then Some(Offset(t, k)) else None
    }

    /** Contiguous, in index order, terminated; used bytes are the sum of (length + 1). */
    ghost predicate Valid()
      reads this, buf, table
    {
      && WellFormed(strings) && size == buf.Length && 0 <= left <= size
      && size - left == Offset(strings, MAX_NR_FUNC)
      && buf[..size - left] == Flat(strings, 0, MAX_NR_FUNC)
      && TableOf(strings)
    }

    /** An empty table in the static buffer func_buf. */
    constructor (capacity: nat)
      ensures Valid() && fresh(buf) && fresh(table)
      ensures strings == seq(MAX_NR_FUNC, _ => None) && size == capacity
    {
      buf := new int[capacity](_ => 0);
      size, left := capacity, capacity;
      table := new Option<nat>[MAX_NR_FUNC](_ => None);
      strings := seq(MAX_NR_FUNC, _ => None);
      new;
      FlatEmpty(strings, 0, MAX_NR_FUNC);
    }

    /** A string sits at its offset, followed by its NUL. */
    lemma StringAt(i: nat)
      requires Valid() && i < MAX_NR_FUNC && strings[i].Some?
      ensures var p, s := Offset(strings, i), strings[i].value;
              && p + |s| + 1 <= size - left && buf[p + |s|] == 0
              && buf[p..p + |s|] == s && CString(buf[p..]) == s
    {
      hide Flat, CString;
      var p, s := Offset(strings, i), strings[i].value;
      FlatAt(strings, i);
      StringIn(buf[..], size - left, p, s);
      assert buf[..][..size - left] == buf[..size - left];
      assert buf[..][p..] == buf[p..] && buf[..][p..p + |s|] == buf[p..p + |s|];
    }

    /** KDGKBSENT: copy out at most 511 bytes of the string and a NUL. */
    method GetString(i: FuncIndex) returns (ret: int, out: Str)
      requires Valid()
      ensures out == match strings[i] case None => [] case Some(s) => if |s| < KB_STRING then s else s[..KB_STRING - 1]
      ensures ret == if strings[i].Some? && |strings[i].value| >= KB_STRING then -EOVERFLOW else 0
    {
      hide Flat, Offset, CString;
      out, ret := [], 0;
      match table[i]
      case None =>
      case Some(p0) =>
        StringAt(i);
        ghost var s := strings[i].value;
        var p, sz := p0, KB_STRING - 1;
        while buf[p] != 0 && sz > 0
          invariant p0 <= p <= p0 + |s| && p - p0 == KB_STRING - 1 - sz && sz >= 0
          invariant out == s[..p - p0] && buf[p0..p0 + |s|] == s
          invariant p0 + |s| < buf.Length && buf[p0 + |s|] == 0
          decreases sz
        {
          assert buf[p] == buf[p0..p0 + |s|][p - p0];
          out := out + [buf[p]];
          p, sz := p + 1, sz - 1;
        }
        assert p < p0 + |s| ==> buf[p] == buf[p0..p0 + |s|][p - p0];
        ret := if buf[p] != 0 then -EOVERFLOW else 0;
    }

    /** The next occupied slot after i, or MAX_NR_FUNC. */
    method NextUsed(i: FuncIndex) returns (j: nat)
      requires Valid()
      ensures Adjoins(strings, i, j) && i < j <= MAX_NR_FUNC && (j < MAX_NR_FUNC ==> strings[j].Some?)
    {
      hide Flat, Offset;
      j := i + 1;
      while j < MAX_NR_FUNC && table[j].None?
        invariant i < j <= MAX_NR_FUNC && forall k :: i < k < j ==> strings[k].None?
      {
        j := j + 1;
      }
    }

    /** The pointer fix-up loop: slots j and later move by delta. */
    method MovePointers(ghost t: Strings, j: nat, delta: int)
      requires |t| == MAX_NR_FUNC && TableOf(t) && j <= MAX_NR_FUNC
      requires Movable(t, j, delta)
      modifies table
      ensures table.Length == MAX_NR_FUNC
      ensures forall k :: 0 <= k < j ==> table[k] == old(table[k])
      ensures forall k :: j <= k < MAX_NR_FUNC ==> table[k] == if t[k].Some? then Some(Offset(t, k) + delta) else None
    {
      for k := j to MAX_NR_FUNC
        invariant forall l :: 0 <= l < j || k <= l < MAX_NR_FUNC ==> table[l] == old(table[l])
        invariant forall l :: j <= l < k ==> table[l] == if t[l].Some? then Some(Offset(t, l) + delta) else None
      {
        if table[k].Some? {
          table[k] := Some(table[k].value + delta);
        }
      }
    }

    /** Where the strings after slot i start: table[j], or the first free byte. */
    ghost predicate TailAt(i: nat, j: nat, fj: nat)
      reads this
    {
      Adjoins(strings, i, j) && fj == Offset(strings, j)
    }

    lemma TailFacts(i: nat, j: nat, fj: nat)
      requires Valid() && TailAt(i, j, fj)
      ensures fj == Offset(strings, i) + |Piece(strings[i])| && fj <= size - left
      ensures buf[..Offset(strings, i)] == Flat(strings, 0, i)
      ensures buf[..fj] == Flat(strings, 0, j)
      ensures buf[fj..size - left] == Flat(strings, j, MAX_NR_FUNC)
    {
      hide Flat, Piece;
      FlatAround(strings, i, j);
      FlatSplit(strings, 0, j, MAX_NR_FUNC);
      FlatSplit(strings, 0, i, MAX_NR_FUNC);
      var used := buf[..size - left];
      assert buf[..fj] == used[..fj] && buf[fj..size - left] == used[fj..];
      assert buf[..Offset(strings, i)] == used[..Offset(strings, i)];
    }

    /** Slot i points where its string belongs; the slots from j on have moved by delta. */
    ghost predicate PointersMoved(t: Strings, i: nat, j: nat, delta: int)
      reads table
      requires |t| == MAX_NR_FUNC && i < j <= MAX_NR_FUNC
    {
      && table.Length == MAX_NR_FUNC && table[i] == Some(Offset(t, i))
      && (forall k :: 0 <= k < j && k != i ==> table[k] == if t[k].Some? then Some(Offset(t, k)) else None)
      && (forall k :: j <= k < MAX_NR_FUNC ==>
            table[k].Some? == t[k].Some? && (t[k].Some? ==> table[k].value == Offset(t, k) + delta))
    }

    /** The state that KDSKBSENT must reach, from the bytes and the pointers. */
    lemma Reached(old_: Strings, i: nat, j: nat, s: Str, fj: nat)
      requires WellFormed(old_) && NoNul(s) && i < MAX_NR_FUNC && strings == old_[i := Some(s)]
      requires Adjoins(old_, i, j) && fj == Offset(old_, j)
      requires size == buf.Length && 0 <= left <= size
      requires size - left == Offset(old_, MAX_NR_FUNC) + |s| + 1 - |Piece(old_[i])|
      requires Slice(buf, 0, size - left) == Joined(Flat(old_, 0, i), s, Flat(old_, j, MAX_NR_FUNC))
      requires PointersMoved(old_, i, j, |s| + 1 - |Piece(old_[i])|)
      ensures Valid()
    {
      hide Flat, Piece, Offset;
      FlatUpdate(old_, i, j, s);
    }

    /** The pointers when the strings from slot j on move by delta and slot i is filled. */
    method FixPointers(ghost t: Strings, i: FuncIndex, j: nat, q: Option<nat>, fj: nat, delta: int, tail: bool)
      requires |t| == MAX_NR_FUNC && TableOf(t) && i < j <= MAX_NR_FUNC && q == table[i]
      requires fj == Offset(t, i) + |Piece(t[i])|
      requires (tail || NoneFrom(t, j)) && Movable(t, j, delta)
      modifies table
      ensures PointersMoved(t, i, j, delta) && table[i] == Some(Offset(t, i))
    {
      hide Flat, Offset;
      if tail {
        MovePointers(t, j, delta);
      }
      if q.None? {
        table[i] := Some(fj);
      }
    }

    /** Pointers and bytes of the branch "it fits in current buf". */
    method LayOutInPlace(i: FuncIndex, j: nat, q: Option<nat>, fj: nat, delta: int, s: Str)
      requires Valid() && TailAt(i, j, fj) && q == table[i]
      requires delta == |s| + 1 - |Piece(strings[i])| && delta <= left
      modifies buf, table
      ensures |strings| == MAX_NR_FUNC && i < j <= MAX_NR_FUNC && PointersMoved(strings, i, j, delta)
      ensures 0 <= size - left + delta <= buf.Length
      ensures Slice(buf, 0, size - left + delta) == Joined(Flat(strings, 0, i), s, Flat(strings, j, MAX_NR_FUNC))
    {
      hide *;
      SetFacts(i, j, fj, delta);
      FixPointers(strings, i, j, q, fj, delta, j < MAX_NR_FUNC);
      MakeRoom(buf, table[i].value, fj, size - left, delta, s);
    }

    /** The branch "it fits in current buf". */
    method SetInPlace(i: FuncIndex, j: nat, q: Option<nat>, fj: nat, delta: int, s: Str)
      requires Valid() && TailAt(i, j, fj) && NoNul(s) && q == table[i]
      requires delta == |s| + 1 - |Piece(strings[i])| && delta <= left
      modifies this`left, this`strings, buf, table
      ensures Valid() && strings == old(strings)[i := Some(s)] && left == old(left) - delta
    {
      hide *;
      SetFacts(i, j, fj, delta);
      ghost var t := strings;
      LayOutInPlace(i, j, q, fj, delta, s);
      left := left - delta;
      strings := t[i := Some(s)];
      Reached(t, i, j, s, fj);
    }

    /** What a call starts from, besides Valid. */
    lemma SetFacts(i: nat, j: nat, fj: nat, delta: int)
      requires Valid() && TailAt(i, j, fj)
      ensures WellFormed(strings) && |strings| == MAX_NR_FUNC && TableOf(strings) && table.Length == MAX_NR_FUNC
      ensures NoneFrom(strings, MAX_NR_FUNC)
      ensures Adjoins(strings, i, j) && i < j <= MAX_NR_FUNC && fj == Offset(strings, j)
      ensures fj == Offset(strings, i) + |Piece(strings[i])|
      ensures fj <= size - left == Offset(strings, MAX_NR_FUNC) && 0 <= left <= size == buf.Length
      ensures Slice(buf, 0, Offset(strings, i)) == Flat(strings, 0, i)
      ensures Slice(buf, fj, size - left) == Flat(strings, j, MAX_NR_FUNC)
      ensures 0 <= fj + delta ==> Movable(strings, j, delta)
    {
      TailFacts(i, j, fj);
      OffsetsAfter(i, j, fj);
    }

    lemma OffsetsAfter(i: nat, j: nat, fj: nat)
      requires Valid() && TailAt(i, j, fj)
      ensures forall k :: j <= k < MAX_NR_FUNC ==> fj <= Offset(strings, k)
    {
      forall k | j <= k < MAX_NR_FUNC
        ensures fj <= Offset(strings, k)
      {
        OffsetMonotone(strings, j, k);
      }
    }

    lemma NoTail(j: nat)
      requires Valid() && j <= MAX_NR_FUNC && Offset(strings, j) == Offset(strings, MAX_NR_FUNC)
      ensures NoneFrom(strings, j)
    {
      forall k | j <= k < MAX_NR_FUNC
        ensures strings[k].None?
      {
        OffsetMonotone(strings, j, k);
        OffsetMonotone(strings, k + 1, MAX_NR_FUNC);
        assert Offset(strings, k + 1) == Offset(strings, k) + |Piece(strings[k])|;
      }
    }

    /** The size of the larger buffer: 256 doubled until the strings fit. */
    static method GrownSize(need: int) returns (sz: nat)
      ensures sz >= 256 && need <= sz && (sz == 256 || sz < 2 * need)
    {
      sz := 256;
      while sz < need
        invariant sz == 256 || (256 < sz < 2 * need)
        decreases need - sz
      {
        sz := sz * 2;
      }
    }

    /** Pointers and bytes of the branch "allocate a larger buffer".  Pointers are offsets here,
        so the relocation of the slots below j leaves them as they are. */
    method LayOutGrown(fnw: array<int>, i: FuncIndex, j: nat, q: Option<nat>, fj: nat, delta: int, s: Str)
      requires Valid() && TailAt(i, j, fj) && q == table[i] && fnw != buf
      requires delta == |s| + 1 - |Piece(strings[i])| && delta > left && size - left + delta <= fnw.Length
      modifies fnw, table
      ensures |strings| == MAX_NR_FUNC && i < j <= MAX_NR_FUNC && PointersMoved(strings, i, j, delta)
      ensures 0 <= size - left + delta <= fnw.Length
      ensures Slice(fnw, 0, size - left + delta) == Joined(Flat(strings, 0, i), s, Flat(strings, j, MAX_NR_FUNC))
    {
      hide *;
      SetFacts(i, j, fj, delta);
      if fj == size - left {
        NoTail(j);
      }
      FixPointers(strings, i, j, q, fj, delta, size - left > fj);
      Rebuild(fnw, buf, table[i].value, fj, size - left, delta, s);
    }

    /** The branch "allocate a larger buffer", the allocation having succeeded. */
    method SetGrown(i: FuncIndex, j: nat, q: Option<nat>, fj: nat, delta: int, s: Str)
      requires Valid() && TailAt(i, j, fj) && NoNul(s) && q == table[i]
      requires delta == |s| + 1 - |Piece(strings[i])| && delta > left
      modifies this`buf, this`size, this`left, this`strings, table
      ensures Valid() && strings == old(strings)[i := Some(s)] && fresh(buf)
      ensures size > old(size) && size - left == old(size - left) + delta
    {
      hide *;
      SetFacts(i, j, fj, delta);
      ghost var t := strings;
      var sz := GrownSize(size - left + delta);
      var fnw := new int[sz];
      LayOutGrown(fnw, i, j, q, fj, delta, s);
      buf := fnw;
      left := left - delta + sz - size;
      size := sz;
      strings := t[i := Some(s)];
      Reached(t, i, j, s, fj);
    }

    /** KDSKBSENT.  `mem` tells whether a larger buffer can be had when one is needed.  The slot holds the
        user's bytes up to the first NUL, at most 511 of them. */
    method SetString(i: FuncIndex, kb: Str, perm: bool, mem: bool) returns (ret: int)
      requires Valid() && |kb| == KB_STRING
      modifies this`buf, this`size, this`left, this`strings, buf, table
      ensures Valid() && (buf == old(buf) || fresh(buf))
      ensures ret == 0 ==> strings == old(strings)[i := Some(UserString(kb))]
      ensures ret == 0 ==> |strings| == MAX_NR_FUNC && strings[i].Some? && Terminated(kb, strings[i].value)
      ensures ret != 0 ==> strings == old(strings) && unchanged(this) && unchanged(buf) && unchanged(table)
      ensures ret == if !perm then -EPERM
                     else if !mem && |UserString(kb)| + 1 - |Piece(old(strings)[i])| > old(left) then -ENOMEM
                     else 0
    {
      if !perm {
        return -EPERM;
      }
      hide *;
      var s := UserString(kb);
      var q, j, fj, delta := Locate(i, s);
      if delta <= left {
        SetInPlace(i, j, q, fj, delta, s);
      } else {
        if !mem {
          return -ENOMEM;
        }
        SetGrown(i, j, q, fj, delta, s);
      }
      return 0;
    }

    /** A string that has been set is read back: the user's bytes up to the first NUL, in full. */
    method SetThenGet(i: FuncIndex, kb: Str, perm: bool, mem: bool) returns (ret: int, got: int, out: Str)
      requires Valid() && |kb| == KB_STRING
      modifies this`buf, this`size, this`left, this`strings, buf, table
      ensures Valid() && (ret == 0 ==> got == 0 && Terminated(kb, out))
    {
      ret := SetString(i, kb, perm, mem);
      got, out := GetString(i);
    }

    /** The old string, where the strings after it start, and by how much those must move. */
    method Locate(i: FuncIndex, s: Str) returns (q: Option<nat>, j: nat, fj: nat, delta: int)
      requires Valid()
      ensures table.Length == MAX_NR_FUNC == |strings| && q == table[i] && TailAt(i, j, fj)
      ensures delta == |s| + 1 - |Piece(strings[i])|
    {
      hide Flat, CString;
      q := table[i];
      var firstFree := size - left;
      j := NextUsed(i);
      fj := if j < MAX_NR_FUNC then table[j].value else firstFree;
      delta := |s| + 1;
      if q.Some? {
        StringAt(i);
        var n := Strlen(buf, q.value);
        delta := |s| - n;
      }
    }

    /** A whole run of settings, some of which may be refused or find no memory: the table is what
        the calls that succeeded make of it, and the bytes used are its footprint. */
    method SetAll(calls: seq<Call>) returns (rets: seq<int>)
      requires Valid() && forall k :: 0 <= k < |calls| ==> |calls[k].kb| == KB_STRING
      modifies this`buf, this`size, this`left, this`strings, buf, table
      ensures Valid() && |old(strings)| == MAX_NR_FUNC && |rets| == |calls|
      ensures strings == Written(old(strings), Succeeded(calls, rets))
      ensures size - left == Footprint(strings, MAX_NR_FUNC)
      ensures forall k :: 0 <= k < |calls| ==> Answered(calls[k], rets[k])
    {
      hide Flat, UserString, Offset, Written, Succeeded, Footprint;
      rets := [];
      ghost var t := strings;
      WrittenStart(t);
      assert calls[..0] == [];
      for n := 0 to |calls|
        invariant Valid() && (buf == old(buf) || fresh(buf)) && |rets| == n
        invariant strings == Written(t, Succeeded(calls[..n], rets))
        invariant forall k :: 0 <= k < n ==> Answered(calls[k], rets[k])
      {
        var c := calls[n];
        var ret := SetString(c.i, c.kb, c.perm, c.mem);
        WrittenStep(t, calls, rets, n, ret);
        rets := rets + [ret];
      }
      assert calls[..|calls|] == calls;
      OffsetIsFootprint(strings, MAX_NR_FUNC);
    }
  }

  /** One KDSKBSENT: the slot, the user's bytes, and the answers to its permission and memory. */
  datatype Call = Call(i: FuncIndex, kb: Str, perm: bool, mem: bool)

  /** A call is refused without permission, may fail without memory, and otherwise succeeds. */
  predicate Answered(c: Call, ret: int) {
    if !c.perm then ret == -EPERM else ret == 0 || (ret == -ENOMEM && !c.mem)
  }

  lemma WrittenStart(t: Strings)
    requires |t| == MAX_NR_FUNC
    ensures Written(t, Succeeded([], [])) == t
  {
  }

  /** The writes of the calls that returned 0. */
  function Succeeded(calls: seq<Call>, rets: seq<int>): seq<(FuncIndex, Str)>
    requires |calls| == |rets| && forall k :: 0 <= k < |calls| ==> |calls[k].kb| == KB_STRING
  {
    if |calls| == 0 then []
    else
      var n := |calls| - 1;
      Succeeded(calls[..n], rets[..n]) + if rets[n] == 0 then [(calls[n].i, UserString(calls[n].kb))] else []
  }

  lemma WrittenStep(t: Strings, calls: seq<Call>, rets: seq<int>, n: nat, ret: int)
    requires |t| == MAX_NR_FUNC && n < |calls| && |rets| == n && forall k :: 0 <= k < |calls| ==> |calls[k].kb| == KB_STRING
    ensures Written(t, Succeeded(calls[..n + 1], rets + [ret]))
            == if ret == 0 then Written(t, Succeeded(calls[..n], rets))[calls[n].i := Some(UserString(calls[n].kb))]
               else Written(t, Succeeded(calls[..n], rets))
  {
    hide UserString;
    var w := Succeeded(calls[..n], rets);
    assert calls[..n + 1][..n] == calls[..n] && (rets + [ret])[..n] == rets;
    assert w + [] == w;
    assert (w + [(calls[n].i, UserString(calls[n].kb))])[..|w|] == w;
  }
}
