/** Sharing of Unicode tables between consoles (drivers/char/consolemap.c:359-516, 568-581): each
    location holds a table or none; tables are counted, split when one holder changes its map,
    and unified when two maps turn out equal. */
module UniPool {
  import opened Common
  import opened UniTable
  import opened UniCopy

  const EINVAL: int := 22

  /** struct uni_pagedir, without the inverse translations. */
  datatype Table = Table(dir: Dir, refcount: int, sum: int, readonly: bool)

  type Tables = map<nat, Table>

  type Locations = map<nat, nat>

  ghost function HolderSet(loc: Locations, t: nat): set<nat> {
    set l | l in loc && loc[l] == t
  }

  /** The number of locations that hold table t. */
  ghost function Holders(loc: Locations, t: nat): nat {
    |HolderSet(loc, t)|
  }

  lemma HoldersSet(loc: Locations, l: nat, t: nat, u: nat)
    requires l !in loc
    ensures Holders(loc[l := t], u) == Holders(loc, u) + if u == t then 1 else 0
  {
    assert HolderSet(loc[l := t], u) == if u == t then HolderSet(loc, u) + {l} else HolderSet(loc, u);
  }

  lemma HoldersRemoved(loc: Locations, l: nat, u: nat)
    requires l in loc
    ensures Holders(loc - {l}, u) == Holders(loc, u) - if loc[l] == u then 1 else 0
  {
    assert HolderSet(loc - {l}, u) == HolderSet(loc, u) - {l};
    assert loc[l] == u <==> l in HolderSet(loc, u);
  }

  lemma HolderCounts(loc: Locations, l: nat)
    requires l in loc
    ensures Holders(loc, loc[l]) >= 1
    ensures Holders(loc, loc[l]) == 1 ==> forall k :: k in loc && k != l ==> loc[k] != loc[l]
  {
    var s := HolderSet(loc, loc[l]);
    assert l in s;
    assert |s - {l}| == |s| - 1;
    assert forall k :: k in loc && k != l && loc[k] == loc[l] ==> k in s - {l};
  }

  /** Every table held is allocated, and every table counts exactly the locations holding it. */
  ghost predicate Counted(tables: Tables, loc: Locations) {
    && (forall l :: l in loc ==> loc[l] in tables)
    && (forall t :: t in tables ==> Ok(tables[t].dir) && tables[t].refcount == Holders(loc, t) >= 1)
  }

  /** One reference to table p less: the table goes when it was the last. */
  function Dropped(tables: Tables, p: nat): (r: Tables)
    requires p in tables
  {
    if tables[p].refcount == 1 then tables - {p}
    else tables[p := tables[p].(refcount := tables[p].refcount - 1)]
  }

  function Taken(tables: Tables, q: nat): (r: Tables)
    requires q in tables
  {
    tables[q := tables[q].(refcount := tables[q].refcount + 1)]
  }

  lemma DropCounted(tables: Tables, loc: Locations, l: nat)
    requires Counted(tables, loc) && l in loc
    ensures Counted(Dropped(tables, loc[l]), loc - {l})
    ensures forall k :: k in loc && k != l ==> loc[k] in Dropped(tables, loc[l]) && Dropped(tables, loc[l])[loc[k]].dir == tables[loc[k]].dir
  {
    hide Ok, Holders;
    HolderCounts(loc, l);
    forall u
      ensures Holders(loc - {l}, u) == Holders(loc, u) - if loc[l] == u then 1 else 0
    {
      HoldersRemoved(loc, l, u);
    }
  }

  lemma TakeCounted(tables: Tables, loc: Locations, l: nat, q: nat)
    requires Counted(tables, loc) && l !in loc && q in tables
    ensures Counted(Taken(tables, q), loc[l := q])
  {
    hide Ok, Holders;
    forall u
      ensures Holders(loc[l := q], u) == Holders(loc, u) + if u == q then 1 else 0
    {
      HoldersSet(loc, l, q, u);
    }
  }

  lemma NoHolders(tables: Tables, loc: Locations, q: nat)
    requires Counted(tables, loc) && q !in tables
    ensures Holders(loc, q) == 0
  {
    hide Ok;
    assert HolderSet(loc, q) == {};
  }

  /** A fresh table with one holder. */
  lemma NewCounted(tables: Tables, loc: Locations, l: nat, q: nat, t: Table)
    requires Counted(tables, loc) && l !in loc && q !in tables && Ok(t.dir) && t.refcount == 1
    ensures Counted(tables[q := t], loc[l := q])
  {
    hide Ok, Holders;
    NoHolders(tables, loc, q);
    forall u
      ensures Holders(loc[l := q], u) == Holders(loc, u) + if u == q then 1 else 0
    {
      HoldersSet(loc, l, q, u);
    }
  }

  function NewTableOf(): Table {
    Table(Empty(), 1, 0, false)
  }

  /** Location l leaves a table that others hold for a fresh one. */
  lemma SplitCounted(tables: Tables, loc: Locations, l: nat, q: nat)
    requires Counted(tables, loc) && q !in tables && (l in loc ==> tables[loc[l]].refcount > 1)
    ensures var ts := if l in loc then Dropped(tables, loc[l]) else tables;
            && Counted(ts[q := NewTableOf()], loc[l := q]) && ts.Keys == tables.Keys
            && forall t :: t in tables ==> ts[t] == if l in loc && t == loc[l] then tables[t].(refcount := tables[t].refcount - 1) else tables[t]
  {
    hide Ok, Holders, HolderSet;
    if l in loc {
      DropCounted(tables, loc, l);
      NewCounted(Dropped(tables, loc[l]), loc - {l}, l, q, NewTableOf());
      assert (loc - {l})[l := q] == loc[l := q];
    } else {
      NewCounted(tables, loc, l, q, NewTableOf());
    }
  }

  /** Location l, alone with its table, joins the holders of q. */
  lemma MergeCounted(tables: Tables, loc: Locations, l: nat, q: nat)
    requires Counted(tables, loc) && l in loc && q in tables && tables[loc[l]].refcount == 1 && q != loc[l]
    ensures Counted(Taken(tables, q) - {loc[l]}, loc[l := q])
    ensures forall k :: k in loc && k != l ==> loc[k] != loc[l] && loc[k] in tables
  {
    hide Ok, Holders, HolderSet;
    HolderCounts(loc, l);
    DropCounted(tables, loc, l);
    TakeCounted(Dropped(tables, loc[l]), loc - {l}, l, q);
    assert Taken(Dropped(tables, loc[l]), q) == Taken(tables, q) - {loc[l]};
    assert (loc - {l})[l := q] == loc[l := q];
  }

  /** Changing the contents of a table that only one location holds. */
  lemma RewriteCounted(tables: Tables, loc: Locations, l: nat, t: Table)
    requires Counted(tables, loc) && l in loc && tables[loc[l]].refcount == 1 && Ok(t.dir) && t.refcount == 1
    ensures Counted(tables[loc[l] := t], loc)
    ensures forall k :: k in loc && k != l ==> tables[loc[l] := t][loc[k]] == tables[loc[k]]
  {
    hide Ok;
    HolderCounts(loc, l);
  }

  // ---- comparing two tables ----

  /** The inner loop of con_unify_unimap's comparison: the page at which two directory slots first
      differ, 32 if they do not. */
  method FirstDifference(p1: Middle, q1: Middle) returns (k: nat)
    requires MiddleOk(p1) && MiddleOk(q1)
    ensures k <= 32 && p1[..k] == q1[..k] && (k < 32 ==> p1[k] != q1[k])
    ensures k == 32 <==> p1 == q1
  {
    k := 0;
    while k < 32
      invariant k <= 32 && p1[..k] == q1[..k]
    {
      if p1[k].Some? || q1[k].Some? {
        if p1[k].None? || q1[k].None? {
          break;
        }
        if p1[k].value != q1[k].value {
          break;
        }
      }
      k := k + 1;
    }
    assert p1[..32] == p1 && q1[..32] == q1;
  }

  /** The whole comparison: equal exactly if every slot and every page agree. */
  method SameDir(p: Dir, q: Dir) returns (same: bool)
    requires Ok(p) && Ok(q)
    ensures same <==> p == q
  {
    var j := 0;
    while j < 32
      invariant j <= 32 && p[..j] == q[..j]
    {
      var p1, q1 := p[j], q[j];
      if p1.Some? || q1.Some? {
        if p1.None? || q1.None? {
          break;
        }
        var k := FirstDifference(p1.value, q1.value);
        if k < 32 {
          break;
        }
      }
      j := j + 1;
    }
    assert p[..32] == p && q[..32] == q;
    same := j == 32;
  }

  /** Tables that agree on every code need not be equal: one may hold a page without entries that the
      other lacks.  Such tables are not merged. */
  lemma EqualLookupsUnmerged()
    ensures var (p, q) := (Empty(), Put(Empty(), 0, NO_GLYPH)); p != q && forall c: ushort :: Raw(p, c) == Raw(q, c)
  {
    forall c: ushort
      ensures Raw(Empty(), c) == Raw(Put(Empty(), 0, NO_GLYPH), c)
    {
      PutRaw(Empty(), 0, NO_GLYPH, c);
    }
    assert Put(Empty(), 0, NO_GLYPH)[0].Some?;
  }

  class Pool {
    const consoles: seq<nat>          // the locations con_unify_unimap looks through
    var tables: Tables
    var loc: Locations
    var dflt: Option<nat>
    var next: nat                     // supplies fresh tables

    ghost predicate Valid()
      reads this
    {
      && Counted(tables, loc) && (forall t :: t in tables ==> t < next)
      && (dflt.Some? ==> dflt.value in tables)
    }

    /** The map seen through a location. */
    ghost function DirAt(l: nat): Option<Dir>
      reads this
    {
      if l in loc && loc[l] in tables then Some(tables[loc[l]].dir) else None
    }

    /** Locations other than l hold what they held and see the map they saw. */
    twostate predicate OnlyChanged(l: nat)
      reads this
    {
      forall k :: k != l ==> (k in loc <==> k in old(loc)) && (k in loc ==> loc[k] == old(loc[k]) && DirAt(k) == old(DirAt(k)))
    }

    constructor (consoles: seq<nat>)
      ensures Valid() && loc == map[] && tables == map[]
    {
      this.consoles := consoles;
      tables, loc, dflt, next := map[], map[], None, 0;
    }

    /** con_free_unimap */
    method FreeUnimap(l: nat)
      requires Valid()
      modifies this`tables, this`loc, this`dflt
      ensures Valid() && loc == old(loc) - {l} && OnlyChanged(l)
      ensures l in old(loc) ==> tables == Dropped(old(tables), old(loc)[l])
    {
      hide Ok, Holders, HolderSet;
      if l !in loc {
        assert loc - {l} == loc;
        return;
      }
      var p := loc[l];
      DropCounted(tables, loc, l);
      loc := loc - {l};
      if tables[p].refcount - 1 != 0 {
        tables := tables[p := tables[p].(refcount := tables[p].refcount - 1)];
        return;
      }
      if dflt == Some(p) {
        dflt := None;
      }
      tables := tables - {p};
    }

    /** con_copy_unimap; `src` is None when there is no source console. */
    method CopyUnimap(dst: nat, src: Option<nat>) returns (ret: int)
      requires Valid()
      modifies this`tables, this`loc, this`dflt
      ensures Valid() && OnlyChanged(dst)
      ensures ret == if src.Some? && src.value in old(loc) then 0 else -EINVAL
      ensures ret == 0 ==> dst in loc && loc[dst] == old(loc)[src.value] && DirAt(dst) == old(DirAt(src.value))
      ensures ret != 0 ==> unchanged(this)
    {
      hide Ok, Counted, Holders, HolderSet;
      if src.None? || src.value !in loc {
        return -EINVAL;
      }
      var s := src.value;
      if dst in loc && loc[dst] == loc[s] {
        return 0;
      }
      HeldExists(s);
      FreeUnimap(dst);
      HeldExists(s);
      var q := loc[s];
      TakeCounted(tables, loc, dst, q);
      tables := tables[q := tables[q].(refcount := tables[q].refcount + 1)];
      loc := loc[dst := q];
      return 0;
    }

    lemma HeldExists(l: nat)
      requires Valid() && l in loc
      ensures loc[l] in tables
    {
    }

    /** con_clear_unimap: an empty table for l alone, the old one staying with its other holders. */
    method ClearUnimap(l: nat) returns (ret: int)
      requires Valid()
      modifies this`tables, this`loc, this`dflt, this`next
      ensures Valid() && OnlyChanged(l)
      ensures ret == -EIO <==> l in old(loc) && old(tables[loc[l]].readonly)
      ensures ret == 0 || ret == -EIO || ret == -ENOMEM
      ensures ret != 0 ==> unchanged(this)
      ensures ret == 0 ==> l in loc && DirAt(l) == Some(Empty()) && tables[loc[l]] == Table(Empty(), 1, 0, false)
      ensures ret == 0 && l in old(loc) && old(tables[loc[l]].refcount) > 1 ==>
                && tables.Keys == old(tables).Keys + {loc[l]} && loc[l] !in old(tables)
                && (forall t :: t in old(tables) && t != old(loc[l]) ==> tables[t] == old(tables)[t])
                && tables[old(loc)[l]] == old(tables[loc[l]]).(refcount := old(tables[loc[l]].refcount) - 1)
      ensures ret == 0 && l in old(loc) && old(tables[loc[l]].refcount) > 1 ==> dflt == old(dflt)
    {
      hide Ok, Holders, HolderSet;
      if l in loc && tables[loc[l]].readonly {
        return -EIO;
      }
      if l !in loc || tables[loc[l]].refcount - 1 != 0 {
        var mem: bool := *;
        if !mem {
          return -ENOMEM;
        }
        NewTable(l);
      } else {
        var p := loc[l];
        if dflt == Some(p) {
          dflt := None;
        }
        RewriteCounted(tables, loc, l, tables[p].(dir := Empty(), sum := 0));
        tables := tables[p := tables[p].(dir := Empty(), sum := 0)];
      }
      return 0;
    }

    /** Gives l an empty table of its own; one it held before has other holders. */
    method NewTable(l: nat)
      requires Valid() && (l in loc ==> tables[loc[l]].refcount > 1)
      modifies this`tables, this`loc, this`next
      ensures Valid() && OnlyChanged(l) && l in loc && DirAt(l) == Some(Empty()) && tables[loc[l]] == Table(Empty(), 1, 0, false)
      ensures tables.Keys == old(tables).Keys + {loc[l]} && loc[l] !in old(tables)
      ensures forall t :: t in old(tables) && !(l in old(loc) && t == old(loc)[l]) ==> tables[t] == old(tables)[t]
      ensures l in old(loc) ==> tables[old(loc)[l]] == old(tables[loc[l]]).(refcount := old(tables[loc[l]].refcount) - 1)
    {
      hide Ok, Counted;
      var q := next;
      NextIsFree();
      SplitCounted(tables, loc, l, q);
      next := next + 1;
      if l in loc {
        var p := loc[l];
        tables := tables[p := tables[p].(refcount := tables[p].refcount - 1)];
      }
      tables := tables[q := Table(Empty(), 1, 0, false)];
      loc := loc[l := q];
    }

    lemma NextIsFree()
      requires Valid()
      ensures next !in tables && forall l :: l in loc ==> loc[l] in tables && loc[l] != next
    {
    }

    /** Whether con_unify_unimap takes console k's table for the one at l. */
    predicate Matches(l: nat, k: nat)
      reads this
      requires l in loc && loc[l] in tables && forall j :: j in loc ==> loc[j] in tables
    {
      k in loc && loc[k] != loc[l] && tables[loc[k]].sum == tables[loc[l]].sum && tables[loc[k]].dir == tables[loc[l]].dir
    }

    /** con_unify_unimap: if another console holds an equal table, l shares it and gives its own
        back.  Only tables that agree on every code are ever merged. */
    method UnifyUnimap(l: nat) returns (merged: bool)
      requires Valid() && l in loc && tables[loc[l]].refcount == 1
      modifies this`tables, this`loc, this`dflt
      ensures Valid() && OnlyChanged(l) && l in loc && DirAt(l) == old(DirAt(l))
      ensures !merged ==> unchanged(this)
      ensures merged ==> exists k :: k in consoles && k in old(loc) && k != l && loc[l] == old(loc)[k]
      ensures forall j :: j in old(loc) ==> old(loc[j] in tables)
      ensures merged <==> exists k :: k in consoles && old(Matches(l, k))
    {
      hide Ok, Holders, HolderSet;
      var p := loc[l];
      for i := 0 to |consoles|
        invariant unchanged(this)
        invariant forall j :: 0 <= j < i ==> !Matches(l, consoles[j])
      {
        var k := consoles[i];
        if k in loc && loc[k] != p && tables[loc[k]].sum == tables[p].sum {
          DirOk(l);
          DirOk(k);
          var same := SameDir(tables[p].dir, tables[loc[k]].dir);
          if same {
            assert Matches(l, k);
            Merge(l, k);
            return true;
          }
        }
      }
      return false;
    }

    /** l gives up its own table for the equal one that k holds. */
    method Merge(l: nat, k: nat)
      requires Valid() && l in loc && k in loc && tables[loc[l]].refcount == 1 && loc[k] != loc[l]
      requires tables[loc[k]].dir == tables[loc[l]].dir
      modifies this`tables, this`loc, this`dflt
      ensures Valid() && OnlyChanged(l) && l in loc && DirAt(l) == old(DirAt(l)) && loc[l] == old(loc)[k]
    {
      hide Ok, Counted;
      NextIsFree();
      var p, q := loc[l], loc[k];
      MergeCounted(tables, loc, l, q);
      tables := tables[q := tables[q].(refcount := tables[q].refcount + 1)];
      loc := loc[l := q];
      if dflt == Some(p) {
        dflt := None;
      }
      tables := tables - {p};
    }

    /** The insertion loop of con_set_unimap, on a table that only l holds.  A failed allocation
        skips its pair and is reported at the end. */
    method InsertPairs(l: nat, list: Pairs) returns (err: int)
      requires Valid() && l in loc && tables[loc[l]].refcount == 1
      modifies this`tables
      ensures Valid() && OnlyChanged(l) && tables.Keys == old(tables).Keys && tables[loc[l]].refcount == 1
      ensures err == 0 || err == -ENOMEM
      ensures err == 0 ==> Ok(old(tables[loc[l]].dir)) && tables[loc[l]].dir == PutAll(old(tables[loc[l]].dir), list)
    {
      hide Ok, Put, Holders, HolderSet;
      err := 0;
      var p := loc[l];
      ghost var d0 := tables[p].dir;
      HolderCounts(loc, l);
      for i := 0 to |list|
        invariant Valid() && OnlyChanged(l) && tables.Keys == old(tables).Keys && tables[p].refcount == 1
        invariant err == 0 || err == -ENOMEM
        invariant err == 0 ==> tables[p].dir == PutAll(d0, list[..i])
      {
        var (c, g) := list[i];
        assert list[..i + 1][..i] == list[..i];
        var d, ok := InsertUnipair(tables[p].dir, c, g);
        var sum := if ok then SumWith(tables[p].sum, c, g) else tables[p].sum;
        RewriteCounted(tables, loc, l, tables[p].(dir := d, sum := sum));
        tables := tables[p := tables[p].(dir := d, sum := sum)];
        if !ok {
          err := -ENOMEM;
        }
      }
      assert list[..|list|] == list;
    }

    /** The private copy of a shared table.  On failure everything is as before. */
    method PrivateCopy(l: nat) returns (ret: int)
      requires Valid() && l in loc && tables[loc[l]].refcount > 1 && !tables[loc[l]].readonly
      modifies this`tables, this`loc, this`dflt, this`next
      ensures Valid() && OnlyChanged(l) && l in loc && (ret == 0 || ret == -ENOMEM)
      ensures ret != 0 ==> tables == old(tables) && loc == old(loc)
      ensures ret == 0 ==> tables[loc[l]].refcount == 1 && Ok(old(tables[loc[l]].dir))
                           && Squeezed(old(tables[loc[l]].dir), 1024, tables[loc[l]].dir)
    {
      hide Ok, Squeezed, Counted;
      var p := loc[l];
      ghost var before, locBefore := tables, loc;
      DirOk(l);
      var d := tables[p].dir;
      ret := ClearUnimap(l);
      if ret != 0 {
        return;
      }
      var q := loc[l];
      var copy, ok, sum := CopyTable(d);
      if !ok {
        tables := tables[p := tables[p].(refcount := tables[p].refcount + 1)] - {q};
        loc := loc[l := p];
        assert tables == before;
        assert loc == locBefore;
        return -ENOMEM;
      }
      RewriteOnly(l, tables[q].(dir := copy, sum := sum));
    }

    lemma DirOk(l: nat)
      requires Valid() && l in loc
      ensures loc[l] in tables && Ok(tables[loc[l]].dir)
    {
    }

    method RewriteOnly(l: nat, t: Table)
      requires Valid() && l in loc && tables[loc[l]].refcount == 1 && Ok(t.dir) && t.refcount == 1
      modifies this`tables
      ensures Valid() && OnlyChanged(l) && tables == old(tables)[loc[l] := t]
    {
      hide Ok, Holders, HolderSet;
      HolderCounts(loc, l);
      RewriteCounted(tables, loc, l, t);
      tables := tables[loc[l] := t];
    }

    /** con_set_unimap.  Other locations see no change.  On success location l sees the writes on
        top of its old map, or of the squeezed copy of it if the map was shared. */
    method SetUnimap(l: nat, list: Pairs) returns (ret: int)
      requires Valid() && l in loc
      modifies this`tables, this`loc, this`dflt, this`next
      ensures Valid() && OnlyChanged(l) && l in loc && Ok(tables[loc[l]].dir) && Ok(old(tables[loc[l]].dir))
      ensures ret == -EIO <==> old(tables[loc[l]].readonly)
      ensures ret == 0 || ret == -EIO || ret == -ENOMEM
      ensures ret == -EIO || list == [] ==> unchanged(this)
      ensures ret == 0 && old(tables[loc[l]].refcount) == 1 ==> DirAt(l) == Some(PutAll(old(tables[loc[l]].dir), list))
      ensures ret == 0 && list != [] && old(tables[loc[l]].refcount) > 1 ==>
                exists q :: Squeezed(old(tables[loc[l]].dir), 1024, q) && Ok(q) && DirAt(l) == Some(PutAll(q, list))
    {
      hide Ok, Squeezed, Counted;
      DirOk(l);
      var p := loc[l];
      ghost var d := tables[p].dir;
      if tables[p].readonly {
        return -EIO;
      }
      if list == [] {
        return 0;
      }
      if tables[p].refcount > 1 {
        ret := PrivateCopy(l);
        if ret != 0 {
          DirOk(l);
          return;
        }
      } else {
        AtLeastOne(l);
        if dflt == Some(p) {
          dflt := None;
        }
      }
      DirOk(l);
      ghost var q := tables[loc[l]].dir;
      ret := InsertPairs(l, list);
      var merged := UnifyUnimap(l);
      DirOk(l);
    }

    lemma AtLeastOne(l: nat)
      requires Valid() && l in loc
      ensures loc[l] in tables && tables[loc[l]].refcount >= 1
    {
    }

    /** con_protect_unimap */
    method ProtectUnimap(l: nat, readonly: bool)
      requires Valid()
      modifies this`tables
      ensures Valid() && OnlyChanged(l) && DirAt(l) == old(DirAt(l)) && tables.Keys == old(tables).Keys
      ensures l in loc ==> tables == old(tables)[loc[l] := old(tables[loc[l]]).(readonly := readonly)]
      ensures l !in loc ==> tables == old(tables)
    {
      hide Ok, Holders, HolderSet;
      if l in loc {
        tables := tables[loc[l] := tables[loc[l]].(readonly := readonly)];
      }
    }
  }

  /** When the table was private or gapless, setting a map is last-write-wins over the old one. */
  lemma SetUnimapLookup(d: Dir, q: Dir, list: Pairs, c: ushort)
    requires Ok(d) && Squeezed(d, 1024, q) && Gapless(d)
    ensures Ok(q) && Raw(PutAll(q, list), c) == LastWrite(list, c, Raw(d, c))
  {
    CopyAgreesAt(d, q, c);
    PutAllRaw(q, list, c);
  }

  /** con_set_default_unimap when a default table exists and l holds another one: l takes the
      default, and its old table, counted down, is released if the count is NOT zero. */
  function SwitchedToDefault(tables: Tables, loc: Locations, l: nat, dflt: nat): (r: (Tables, Locations))
    requires dflt in tables && (l in loc ==> loc[l] in tables && loc[l] != dflt)
  {
    var ts := Taken(tables, dflt);
    var ts' := if l !in loc then ts
               else if tables[loc[l]].refcount - 1 != 0 then ts - {loc[l]}
               else ts[loc[l] := ts[loc[l]].(refcount := 0)];
    (ts', loc[l := dflt])
  }

  /** The sense of that test is wrong: the other locations keep their tables exactly when there
      were none sharing l's old table, and then that table is never released. */
  lemma SwitchToDefaultIff(tables: Tables, loc: Locations, l: nat, dflt: nat)
    requires Counted(tables, loc) && dflt in tables && (l in loc ==> loc[l] != dflt)
    ensures l in loc ==> loc[l] in tables
    ensures var (ts, ls) := SwitchedToDefault(tables, loc, l, dflt);
            && ((forall k :: k in ls ==> ls[k] in ts) <==> l !in loc || tables[loc[l]].refcount == 1)
            && (l in loc && tables[loc[l]].refcount == 1 ==>
                  loc[l] in ts && HolderSet(ls, loc[l]) == {} && ts[loc[l]] == tables[loc[l]].(refcount := 0))
            && dflt in ts && ts[dflt] == tables[dflt].(refcount := tables[dflt].refcount + 1)
            && l in ls && ls[l] == dflt && (forall k :: k in loc && k != l ==> k in ls && ls[k] == loc[k])
            && (forall t :: t in tables && t != dflt && (l in loc ==> t != loc[l]) ==> t in ts && ts[t] == tables[t])
  {
    hide Ok, Holders;
    var (ts, ls) := SwitchedToDefault(tables, loc, l, dflt);
    if l in loc {
      HolderCounts(loc, l);
      if tables[loc[l]].refcount != 1 {
        var k := AnotherHolder(loc, l);
        assert k in ls && ls[k] !in ts;
      }
    }
  }

  /** Two locations share table 0, a third holds the default: when location 0 switches to the default,
      location 1 is left with a table that has been freed. */
  lemma SharedTableFreed()
    ensures var (tables, loc) := (map[0 := Table(Empty(), 2, 0, false), 1 := Table(Empty(), 1, 0, false)],
                                  map[0 := 0, 1 := 0, 2 := 1]);
            Counted(tables, loc) && SwitchedToDefault(tables, loc, 0, 1).1[1] !in SwitchedToDefault(tables, loc, 0, 1).0
  {
    hide Ok;
    var loc: Locations := map[0 := 0, 1 := 0, 2 := 1];
    assert HolderSet(loc, 0) == {0, 1} && HolderSet(loc, 1) == {2};
  }

  lemma AnotherHolder(loc: Locations, l: nat) returns (k: nat)
    requires l in loc && Holders(loc, loc[l]) != 1
    ensures k in loc && k != l && loc[k] == loc[l]
  {
    var s := HolderSet(loc, loc[l]);
    assert l in s;
    assert s != {l};
    var rest := s - {l};
    assert rest != {};
    k :| k in rest;
  }
}
