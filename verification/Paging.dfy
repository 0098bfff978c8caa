/**
 The two-level page tables of kernel/memory.cc.

 A space's directory has 1024 entries, each of which may name a table of 1024
 entries. The claim is that, although tables are written in place through
 physical addresses, the whole structure behaves like one flat map from
 (space, page) to page table entry.

 Addresses are page numbers (address >> 12).
 */
module Paging {
  import opened Bytes
  import opened Pools
  import opened PageAlloc

  const ENTRIES: nat := 1024
  const PAGES: nat := ENTRIES * ENTRIES

  /** The MEM_PE_* and MEM_PTE_* bits; `G` is bit 0x80, which is MEM_PDE_S in a directory entry. */
  datatype PageFlag = P | RW | U | W | D | A | Dirty | G
  type Flags = set<PageFlag>

  datatype Pte = Pte(frame: nat, flags: Flags)
  datatype Pde = Pde(table: nat, flags: Flags)

  type Key = (nat, nat)
  type Flat = map<Key, Pte>

  function Lookup(flat: Flat, space: nat, page: nat): Option<Pte> {
    if (space, page) in flat then Some(flat[(space, page)]) else None
  }

  /** What map_page does to the flat map: present entries are stored, others removed. */
  function Mapped(flat: Flat, space: nat, page: nat, pte: Pte): Flat {
    if P in pte.flags then flat[(space, page) := pte] else flat - {(space, page)}
  }

  /** The memory the page tables live in. */
  datatype Memory = Memory(pageDir: map<nat, nat>, dirs: map<nat, seq<Pde>>, tables: map<nat, seq<Pte>>) {

    ghost predicate Sized() {
      && (forall s <- pageDir :: pageDir[s] in dirs)
      && (forall d <- dirs :: |dirs[d]| == ENTRIES)
      && (forall t <- tables :: |tables[t]| == ENTRIES)
      && (forall s, i :: s in pageDir && 0 <= i < ENTRIES && P in dirs[pageDir[s]][i].flags
            ==> dirs[pageDir[s]][i].table in tables)
    }

    function Entry(s: nat, i: nat): Pde
      requires Sized() && s in pageDir && i < ENTRIES
    {
      dirs[pageDir[s]][i]
    }

    function FindPte(s: nat, page: nat): Option<Pte>
      requires Sized() && s in pageDir && page < PAGES
    {
      var pde := Entry(s, page / ENTRIES);
      if P !in pde.flags then None else
        var pte := tables[pde.table][page % ENTRIES];
        if P !in pte.flags then None else Some(pte)
    }

    /** What the processor finds: access that both levels allow, and no table below an entry for a large page. */
    function Walk(s: nat, page: nat): Option<Pte>
      requires Sized() && s in pageDir && page < PAGES
    {
      var pte := FindPte(s, page);
      if pte.None? || G in Entry(s, page / ENTRIES).flags then None else
        var missing := {RW, U} - Entry(s, page / ENTRIES).flags;
        Some(pte.value.(flags := pte.value.flags - missing))
    }
  }

  function BlankDir(): seq<Pde> {
    seq(ENTRIES, _ => Pde(0, {}))
  }

  function BlankTable(): seq<Pte> {
    seq(ENTRIES, _ => Pte(0, {}))
  }

  /** Every directory belongs to one space, and every table to one directory entry of one space. */
  ghost predicate DirsOwned(m: Memory, dirOwner: map<nat, nat>) {
    && dirOwner.Keys == m.dirs.Keys
    && (forall s <- m.pageDir :: m.pageDir[s] in dirOwner && dirOwner[m.pageDir[s]] == s)
    && (forall d <- dirOwner :: dirOwner[d] in m.pageDir && m.pageDir[dirOwner[d]] == d)
  }

  ghost predicate TablesOwned(m: Memory, tableOwner: map<nat, Key>)
    requires m.Sized()
  {
    && tableOwner.Keys == m.tables.Keys
    && (forall s, i :: s in m.pageDir && 0 <= i < ENTRIES && P in m.Entry(s, i).flags ==>
          m.Entry(s, i).table in tableOwner && tableOwner[m.Entry(s, i).table] == (s, i))
    && (forall t <- tableOwner ::
          && tableOwner[t].0 in m.pageDir && tableOwner[t].1 < ENTRIES
          && P in m.Entry(tableOwner[t].0, tableOwner[t].1).flags
          && m.Entry(tableOwner[t].0, tableOwner[t].1).table == t)
  }

  ghost predicate Owned(m: Memory, dirOwner: map<nat, nat>, tableOwner: map<nat, Key>) {
    m.Sized() && DirsOwned(m, dirOwner) && TablesOwned(m, tableOwner)
  }

  /** Walking the tables gives the same answer as the flat map, for every space and page. */
  ghost predicate Translates(m: Memory, flat: Flat)
    requires m.Sized()
  {
    && (forall k <- flat :: k.0 in m.pageDir && k.1 < PAGES)
    && (forall s, page: nat :: s in m.pageDir && page < PAGES ==> m.FindPte(s, page) == Lookup(flat, s, page))
  }

  /** The directory entry above a present page allows whatever the page's own entry does. */
  ghost predicate Allows(m: Memory, flat: Flat)
    requires m.Sized()
  {
    forall k <- flat :: k.0 in m.pageDir && k.1 < PAGES ==>
      flat[k].flags * {P, RW, U} <= m.Entry(k.0, k.1 / ENTRIES).flags
  }

  /** Directory entries have no bit that means something else there. */
  ghost predicate Plain(m: Memory)
    requires m.Sized()
  {
    forall s, i: nat :: s in m.pageDir && i < ENTRIES ==> m.Entry(s, i).flags !! {G, Dirty}
  }

  /** So the processor's view is the flat map too. */
  lemma WalkAgrees(m: Memory, flat: Flat, s: nat, page: nat)
    requires m.Sized() && Translates(m, flat) && Allows(m, flat) && Plain(m) && s in m.pageDir && page < PAGES
    ensures m.Walk(s, page) == Lookup(flat, s, page)
  {
    var pte := m.FindPte(s, page);
    assert pte == Lookup(flat, s, page);
    if pte.Some? {
      var missing := {RW, U} - m.Entry(s, page / ENTRIES).flags;
      assert flat[(s, page)].flags * {P, RW, U} <= m.Entry(s, page / ENTRIES).flags;
      assert pte.value.flags - missing == pte.value.flags;
    }
  }

  /** A directory entry changes for the better: what was present keeps its table and its flags. */
  ghost predicate Widened(was: Pde, pde: Pde) {
    P in was.flags ==> pde.table == was.table && was.flags <= pde.flags
  }

  /** Only the entry `i` of space `s` has changed, and that only for the better. */
  ghost predicate OnlyWidened(m: Memory, m': Memory, s: nat, i: nat) {
    && m.Sized() && m'.Sized() && m'.pageDir == m.pageDir
    && forall s2, i2: nat :: s2 in m.pageDir && i2 < ENTRIES ==>
         if (s2, i2) == (s, i) then Widened(m.Entry(s2, i2), m'.Entry(s2, i2)) else m'.Entry(s2, i2) == m.Entry(s2, i2)
  }

  lemma PlainWidened(m: Memory, m': Memory, s: nat, i: nat, more: Flags)
    requires OnlyWidened(m, m', s, i) && Plain(m) && s in m.pageDir && i < ENTRIES
    requires m'.Entry(s, i).flags <= m.Entry(s, i).flags + more && more !! {G, Dirty}
    ensures Plain(m')
  {
    hide Memory.Entry, Memory.Sized;
  }

  lemma AllowsWidened(m: Memory, m': Memory, flat: Flat, s: nat, i: nat)
    requires m.Sized() && Translates(m, flat) && Allows(m, flat) && OnlyWidened(m, m', s, i)
    ensures Allows(m', flat)
  {
    hide Lookup, Memory.Sized;
    forall k | k in flat
      ensures k.0 in m.pageDir && k.1 < PAGES && P in m.Entry(k.0, k.1 / ENTRIES).flags
    {
      PresentAbove(m, flat, k);
    }
  }

  lemma AllowsWrite(m: Memory, m': Memory, flat: Flat, s: nat, page: nat, pte: Pte)
    requires m.Sized() && Translates(m, flat) && Allows(m, flat) && s in m.pageDir && page < PAGES
    requires OnlyWidened(m, m', s, page / ENTRIES)
    requires P in pte.flags ==> pte.flags * {P, RW, U} <= m'.Entry(s, page / ENTRIES).flags
    ensures Allows(m', Mapped(flat, s, page, pte))
  {
    hide Lookup, Memory.Sized;
    forall k | k in flat
      ensures k.0 in m.pageDir && k.1 < PAGES
      ensures flat[k].flags * {P, RW, U} <= m'.Entry(k.0, k.1 / ENTRIES).flags
    {
      PresentAbove(m, flat, k);
    }
  }

  lemma PresentAbove(m: Memory, flat: Flat, k: Key)
    requires m.Sized() && Translates(m, flat) && k in flat
    ensures k.0 in m.pageDir && k.1 < PAGES && P in m.Entry(k.0, k.1 / ENTRIES).flags && P in flat[k].flags
  {
    assert m.FindPte(k.0, k.1) == Lookup(flat, k.0, k.1);
  }

  function SetEntry(m: Memory, s: nat, i: nat, pde: Pde): Memory
    requires m.Sized() && s in m.pageDir && i < ENTRIES
  {
    m.(dirs := m.dirs[m.pageDir[s] := m.dirs[m.pageDir[s]][i := pde]])
  }

  function SetPte(m: Memory, t: nat, i: nat, pte: Pte): Memory
    requires m.Sized() && t in m.tables && i < ENTRIES
  {
    m.(tables := m.tables[t := m.tables[t][i := pte]])
  }

  function Install(m: Memory, s: nat, i: nat, t: nat, flags: Flags): Memory
    requires m.Sized() && s in m.pageDir && i < ENTRIES
  {
    SetEntry(m.(tables := m.tables[t := BlankTable()]), s, i, Pde(t, flags))
  }

  lemma EntriesElsewhere(m: Memory, dirOwner: map<nat, nat>, s: nat, i: nat, pde: Pde)
    requires m.Sized() && DirsOwned(m, dirOwner) && s in m.pageDir && i < ENTRIES
    requires P in pde.flags ==> pde.table in m.tables
    ensures var m' := SetEntry(m, s, i, pde);
      && m'.Sized() && DirsOwned(m', dirOwner)
      && (forall s2, i2: nat :: s2 in m.pageDir && i2 < ENTRIES ==>
            m'.Entry(s2, i2) == if (s2, i2) == (s, i) then pde else m.Entry(s2, i2))
  {
  }

  lemma NothingWidened(m: Memory, s: nat, i: nat)
    requires m.Sized()
    ensures OnlyWidened(m, m, s, i)
  {
  }

  lemma InstallWidens(m: Memory, dirOwner: map<nat, nat>, s: nat, i: nat, t: nat, flags: Flags)
    requires m.Sized() && DirsOwned(m, dirOwner)
    requires s in m.pageDir && i < ENTRIES && P !in m.Entry(s, i).flags && t !in m.tables && P in flags
    ensures var m' := Install(m, s, i, t, flags);
      OnlyWidened(m, m', s, i) && m'.Entry(s, i) == Pde(t, flags)
  {
    hide DirsOwned, Memory.Sized, Memory.Entry;
    InstallEntries(m, dirOwner, s, i, t, flags);
  }

  lemma WidenWidens(m: Memory, dirOwner: map<nat, nat>, s: nat, i: nat, flags: Flags)
    requires m.Sized() && DirsOwned(m, dirOwner) && s in m.pageDir && i < ENTRIES && P in m.Entry(s, i).flags
    requires m.Entry(s, i).table in m.tables
    ensures var pde := m.Entry(s, i).(flags := m.Entry(s, i).flags + flags);
      OnlyWidened(m, SetEntry(m, s, i, pde), s, i) && SetEntry(m, s, i, pde).Entry(s, i) == pde
  {
    hide DirsOwned, Memory.Sized, Memory.Entry;
    EntriesElsewhere(m, dirOwner, s, i, m.Entry(s, i).(flags := m.Entry(s, i).flags + flags));
  }

  lemma WriteWidens(m: Memory, m': Memory, s: nat, i: nat, t: nat, j: nat, pte: Pte)
    requires OnlyWidened(m, m', s, i) && s in m.pageDir && i < ENTRIES && t in m'.tables && j < ENTRIES
    ensures var m2 := SetPte(m', t, j, pte);
      OnlyWidened(m, m2, s, i) && m2.Entry(s, i) == m'.Entry(s, i)
  {
    var m2 := SetPte(m', t, j, pte);
    assert forall s2, i2: nat :: s2 in m.pageDir && i2 < ENTRIES ==> m2.Entry(s2, i2) == m'.Entry(s2, i2);
  }

  /** Pages that keep their entries at both levels stay allowed. */
  lemma AllowsKept(m: Memory, m': Memory, flat: Flat, flat': Flat)
    requires m.Sized() && m'.Sized() && Translates(m, flat) && Allows(m, flat)
    requires forall k <- flat' :: k in flat && flat'[k] == flat[k]
    requires forall k <- flat' :: k.0 in m.pageDir && k.0 in m'.pageDir && k.1 < PAGES ==>
      m'.Entry(k.0, k.1 / ENTRIES) == m.Entry(k.0, k.1 / ENTRIES)
    ensures Allows(m', flat')
  {
    hide Memory.Entry, Memory.Sized;
  }

  lemma SetSameEntry(m: Memory, s: nat, i: nat)
    requires m.Sized() && s in m.pageDir && i < ENTRIES
    ensures SetEntry(m, s, i, m.Entry(s, i)) == m
  {
    var dir := m.dirs[m.pageDir[s]];
    assert dir[i := dir[i]] == dir;
  }

  /** Hooking up a fresh blank table changes no translation. */
  lemma InstallKeeps(m: Memory, dirOwner: map<nat, nat>, tableOwner: map<nat, Key>, flat: Flat, s: nat, i: nat,
                     t: nat, flags: Flags)
    requires Owned(m, dirOwner, tableOwner) && Translates(m, flat)
    requires s in m.pageDir && i < ENTRIES && P !in m.Entry(s, i).flags && t !in m.tables && P in flags
    ensures Owned(Install(m, s, i, t, flags), dirOwner, tableOwner[t := (s, i)])
    ensures Translates(Install(m, s, i, t, flags), flat)
  {
    hide TablesOwned, Translates;
    InstallOwned(m, dirOwner, tableOwner, s, i, t, flags);
    InstallTranslates(m, dirOwner, flat, s, i, t, flags);
  }

  lemma InstallEntries(m: Memory, dirOwner: map<nat, nat>, s: nat, i: nat, t: nat, flags: Flags)
    requires m.Sized() && DirsOwned(m, dirOwner)
    requires s in m.pageDir && i < ENTRIES && P !in m.Entry(s, i).flags && t !in m.tables && P in flags
    ensures var m' := Install(m, s, i, t, flags);
      && m'.Sized() && DirsOwned(m', dirOwner)
      && (forall s2, i2: nat :: s2 in m.pageDir && i2 < ENTRIES ==>
            m'.Entry(s2, i2) == if (s2, i2) == (s, i) then Pde(t, flags) else m.Entry(s2, i2))
  {
    var m1 := m.(tables := m.tables[t := BlankTable()]);
    assert forall s2, i2: nat :: s2 in m.pageDir && i2 < ENTRIES ==> m1.Entry(s2, i2) == m.Entry(s2, i2);
    EntriesElsewhere(m1, dirOwner, s, i, Pde(t, flags));
  }

  lemma InstallOwned(m: Memory, dirOwner: map<nat, nat>, tableOwner: map<nat, Key>, s: nat, i: nat, t: nat,
                     flags: Flags)
    requires Owned(m, dirOwner, tableOwner)
    requires s in m.pageDir && i < ENTRIES && P !in m.Entry(s, i).flags && t !in m.tables && P in flags
    ensures Owned(Install(m, s, i, t, flags), dirOwner, tableOwner[t := (s, i)])
  {
    hide DirsOwned, Memory.Entry;
    InstallEntries(m, dirOwner, s, i, t, flags);
  }

  lemma InstallTranslates(m: Memory, dirOwner: map<nat, nat>, flat: Flat, s: nat, i: nat, t: nat, flags: Flags)
    requires m.Sized() && DirsOwned(m, dirOwner) && Translates(m, flat)
    requires s in m.pageDir && i < ENTRIES && P !in m.Entry(s, i).flags && t !in m.tables && P in flags
    ensures Install(m, s, i, t, flags).Sized() && Translates(Install(m, s, i, t, flags), flat)
  {
    hide DirsOwned, Lookup;
    InstallEntries(m, dirOwner, s, i, t, flags);
    var m' := Install(m, s, i, t, flags);
    forall s2, page: nat | s2 in m.pageDir && page < PAGES
      ensures m'.FindPte(s2, page) == m.FindPte(s2, page)
    {
    }
  }

  /** Adding flags to a present directory entry changes no translation. */
  lemma WidenKeeps(m: Memory, dirOwner: map<nat, nat>, tableOwner: map<nat, Key>, flat: Flat, s: nat, i: nat,
                   flags: Flags)
    requires Owned(m, dirOwner, tableOwner) && Translates(m, flat)
    requires s in m.pageDir && i < ENTRIES && P in m.Entry(s, i).flags
    ensures var m' := SetEntry(m, s, i, m.Entry(s, i).(flags := m.Entry(s, i).flags + flags));
      Owned(m', dirOwner, tableOwner) && Translates(m', flat)
  {
    hide DirsOwned, Lookup;
    EntriesElsewhere(m, dirOwner, s, i, m.Entry(s, i).(flags := m.Entry(s, i).flags + flags));
  }

  /** Writing a table entry changes exactly one translation, of one page in one space. */
  lemma WriteKeeps(m: Memory, dirOwner: map<nat, nat>, tableOwner: map<nat, Key>, flat: Flat, s: nat, page: nat,
                   pte: Pte)
    requires Owned(m, dirOwner, tableOwner) && Translates(m, flat)
    requires s in m.pageDir && page < PAGES && P in m.Entry(s, page / ENTRIES).flags
    ensures var m' := SetPte(m, m.Entry(s, page / ENTRIES).table, page % ENTRIES, pte);
      Owned(m', dirOwner, tableOwner) && Translates(m', Mapped(flat, s, page, pte))
  {
    var t := m.Entry(s, page / ENTRIES).table;
    var m' := SetPte(m, t, page % ENTRIES, pte);
    assert forall s2, i2: nat :: s2 in m.pageDir && i2 < ENTRIES ==> m'.Entry(s2, i2) == m.Entry(s2, i2);
    forall s2, q: nat | s2 in m.pageDir && q < PAGES
      ensures m'.FindPte(s2, q) == Lookup(Mapped(flat, s, page, pte), s2, q)
    {
      WriteElsewhere(m, tableOwner, s, page, pte, s2, q);
    }
  }

  lemma WriteElsewhere(m: Memory, tableOwner: map<nat, Key>, s: nat, page: nat, pte: Pte, s2: nat, q: nat)
    requires m.Sized() && TablesOwned(m, tableOwner)
    requires s in m.pageDir && page < PAGES && P in m.Entry(s, page / ENTRIES).flags
    requires s2 in m.pageDir && q < PAGES
    ensures var m' := SetPte(m, m.Entry(s, page / ENTRIES).table, page % ENTRIES, pte);
      && m'.Sized()
      && m'.FindPte(s2, q) ==
         if (s2, q) != (s, page) then m.FindPte(s2, q) else if P in pte.flags then Some(pte) else None
  {
    if (s2, q) != (s, page) {
      assert s2 != s || q / ENTRIES != page / ENTRIES || q % ENTRIES != page % ENTRIES;
    }
  }

  /** The flat map without the pages below directory entry `i` of space `s`. */
  ghost function WithoutLow(flat: Flat, s: nat, i: nat): Flat {
    map k | k in flat && !(k.0 == s && k.1 / ENTRIES < i) :: flat[k]
  }

  /** The tables that the directory entries below `i` of space `s` name. */
  ghost function TablesBelow(m: Memory, s: nat, i: nat): set<nat>
    requires m.Sized() && s in m.pageDir && i <= ENTRIES
  {
    set j | 0 <= j < i && P in m.Entry(s, j).flags :: m.Entry(s, j).table
  }

  function DropTable(m: Memory, s: nat, i: nat): Memory
    requires m.Sized() && s in m.pageDir && i < ENTRIES
  {
    SetEntry(m, s, i, Pde(0, {})).(tables := m.tables - {m.Entry(s, i).table})
  }

  lemma DropEntries(m: Memory, dirOwner: map<nat, nat>, tableOwner: map<nat, Key>, s: nat, i: nat)
    requires Owned(m, dirOwner, tableOwner) && s in m.pageDir && i < ENTRIES && P in m.Entry(s, i).flags
    ensures var m' := DropTable(m, s, i);
      && m'.Sized() && DirsOwned(m', dirOwner)
      && (forall s2, i2: nat :: s2 in m.pageDir && i2 < ENTRIES ==>
            m'.Entry(s2, i2) == if (s2, i2) == (s, i) then Pde(0, {}) else m.Entry(s2, i2))
  {
    var m1 := SetEntry(m, s, i, Pde(0, {}));
    EntriesElsewhere(m, dirOwner, s, i, Pde(0, {}));
    forall s2, i2: nat | s2 in m.pageDir && i2 < ENTRIES && P in m1.Entry(s2, i2).flags
      ensures m1.Entry(s2, i2).table != m.Entry(s, i).table
    {
      assert m1.Entry(s2, i2) == m.Entry(s2, i2);
    }
    assert forall s2, i2 :: s2 in m.pageDir && 0 <= i2 < ENTRIES ==> m1.dirs[m1.pageDir[s2]][i2] == m1.Entry(s2, i2);
  }

  /** Giving back the table of one directory entry removes exactly that entry's pages. */
  lemma DropKeeps(m: Memory, dirOwner: map<nat, nat>, tableOwner: map<nat, Key>, flat: Flat, s: nat, i: nat)
    requires Owned(m, dirOwner, tableOwner) && Translates(m, WithoutLow(flat, s, i))
    requires s in m.pageDir && i < ENTRIES && P in m.Entry(s, i).flags
    ensures var m' := DropTable(m, s, i);
      Owned(m', dirOwner, tableOwner - {m.Entry(s, i).table}) && Translates(m', WithoutLow(flat, s, i + 1))
  {
    DropOwned(m, dirOwner, tableOwner, s, i);
    DropTranslates(m, dirOwner, tableOwner, flat, s, i);
  }

  lemma DropOwned(m: Memory, dirOwner: map<nat, nat>, tableOwner: map<nat, Key>, s: nat, i: nat)
    requires Owned(m, dirOwner, tableOwner) && s in m.pageDir && i < ENTRIES && P in m.Entry(s, i).flags
    ensures Owned(DropTable(m, s, i), dirOwner, tableOwner - {m.Entry(s, i).table})
  {
    hide DirsOwned;
    DropEntries(m, dirOwner, tableOwner, s, i);
  }

  lemma DropTranslates(m: Memory, dirOwner: map<nat, nat>, tableOwner: map<nat, Key>, flat: Flat, s: nat, i: nat)
    requires Owned(m, dirOwner, tableOwner) && Translates(m, WithoutLow(flat, s, i))
    requires s in m.pageDir && i < ENTRIES && P in m.Entry(s, i).flags
    ensures DropTable(m, s, i).Sized() && Translates(DropTable(m, s, i), WithoutLow(flat, s, i + 1))
  {
    hide DirsOwned;
    DropEntries(m, dirOwner, tableOwner, s, i);
    var m' := DropTable(m, s, i);
    forall s2, q: nat | s2 in m'.pageDir && q < PAGES
      ensures m'.FindPte(s2, q) == Lookup(WithoutLow(flat, s, i + 1), s2, q)
    {
      assert m.FindPte(s2, q) == Lookup(WithoutLow(flat, s, i), s2, q);
      if s2 == s && q / ENTRIES == i {
        assert m'.Entry(s, i) == Pde(0, {});
      } else {
        assert m'.FindPte(s2, q) == m.FindPte(s2, q);
      }
    }
  }

  lemma DropAllows(m: Memory, dirOwner: map<nat, nat>, tableOwner: map<nat, Key>, flat: Flat, s: nat, i: nat)
    requires Owned(m, dirOwner, tableOwner) && Translates(m, WithoutLow(flat, s, i))
    requires Allows(m, WithoutLow(flat, s, i)) && s in m.pageDir && i < ENTRIES && P in m.Entry(s, i).flags
    ensures DropTable(m, s, i).Sized() && Allows(DropTable(m, s, i), WithoutLow(flat, s, i + 1))
    ensures Plain(m) ==> Plain(DropTable(m, s, i))
  {
    DropEntries(m, dirOwner, tableOwner, s, i);
    hide Memory.Entry, DirsOwned, TablesOwned, Translates, Memory.Sized;
    AllowsKept(m, DropTable(m, s, i), WithoutLow(flat, s, i), WithoutLow(flat, s, i + 1));
  }

  /** An absent directory entry has no pages to remove. */
  lemma SkipKeeps(m: Memory, flat: Flat, s: nat, i: nat)
    requires m.Sized() && Translates(m, WithoutLow(flat, s, i))
    requires s in m.pageDir && i < ENTRIES && P !in m.Entry(s, i).flags
    ensures WithoutLow(flat, s, i + 1) == WithoutLow(flat, s, i)
  {
    forall k | k in WithoutLow(flat, s, i) && k.0 == s
      ensures k.1 / ENTRIES != i
    {
      assert m.FindPte(s, k.1) == Lookup(WithoutLow(flat, s, i), s, k.1);
    }
  }

  function NewSpace(m: Memory, s: nat, d: nat): Memory {
    m.(pageDir := m.pageDir[s := d], dirs := m.dirs[d := BlankDir()])
  }

  lemma NewSpaceEntries(m: Memory, dirOwner: map<nat, nat>, s: nat, d: nat)
    requires m.Sized() && DirsOwned(m, dirOwner) && s !in m.pageDir && d !in m.dirs
    ensures var m' := NewSpace(m, s, d);
      && m'.Sized() && DirsOwned(m', dirOwner[d := s])
      && (forall i: nat :: i < ENTRIES ==> m'.Entry(s, i) == Pde(0, {}))
      && (forall s2, i: nat :: s2 in m.pageDir && i < ENTRIES ==> m'.Entry(s2, i) == m.Entry(s2, i))
  {
  }

  lemma NewSpaceKeeps(m: Memory, dirOwner: map<nat, nat>, tableOwner: map<nat, Key>, flat: Flat, s: nat, d: nat)
    requires Owned(m, dirOwner, tableOwner) && Translates(m, flat)
    requires s !in m.pageDir && d !in m.dirs
    ensures Owned(NewSpace(m, s, d), dirOwner[d := s], tableOwner) && Translates(NewSpace(m, s, d), flat)
  {
    hide DirsOwned;
    NewSpaceEntries(m, dirOwner, s, d);
  }

  lemma NewSpaceAllows(m: Memory, dirOwner: map<nat, nat>, flat: Flat, s: nat, d: nat)
    requires m.Sized() && DirsOwned(m, dirOwner) && Translates(m, flat) && Allows(m, flat)
    requires s !in m.pageDir && d !in m.dirs
    ensures NewSpace(m, s, d).Sized() && Allows(NewSpace(m, s, d), flat)
    ensures Plain(m) ==> Plain(NewSpace(m, s, d))
  {
    NewSpaceEntries(m, dirOwner, s, d);
    AllowsKept(m, NewSpace(m, s, d), flat, flat);
    hide Memory.Entry, DirsOwned, Allows;
  }

  function DropSpace(m: Memory, s: nat): Memory
    requires s in m.pageDir
  {
    m.(pageDir := m.pageDir - {s}, dirs := m.dirs - {m.pageDir[s]})
  }

  lemma DropSpaceEntries(m: Memory, dirOwner: map<nat, nat>, s: nat)
    requires m.Sized() && DirsOwned(m, dirOwner) && s in m.pageDir
    ensures var m' := DropSpace(m, s);
      && m'.Sized() && DirsOwned(m', dirOwner - {m.pageDir[s]})
      && (forall s2, i: nat :: s2 in m'.pageDir && i < ENTRIES ==> m'.Entry(s2, i) == m.Entry(s2, i))
  {
  }

  /** A directory without present entries can go, and takes no translation with it. */
  lemma DropSpaceKeeps(m: Memory, dirOwner: map<nat, nat>, tableOwner: map<nat, Key>, flat: Flat, s: nat)
    requires Owned(m, dirOwner, tableOwner) && Translates(m, flat) && s in m.pageDir
    requires forall i: nat :: i < ENTRIES ==> P !in m.Entry(s, i).flags
    ensures Owned(DropSpace(m, s), dirOwner - {m.pageDir[s]}, tableOwner) && Translates(DropSpace(m, s), flat)
  {
    hide DirsOwned;
    DropSpaceEntries(m, dirOwner, s);
    forall k | k in flat
      ensures k.0 != s
    {
      assert m.FindPte(k.0, k.1) == Lookup(flat, k.0, k.1);
    }
  }

  lemma DropSpaceAllows(m: Memory, dirOwner: map<nat, nat>, flat: Flat, s: nat)
    requires m.Sized() && DirsOwned(m, dirOwner) && Translates(m, flat) && Allows(m, flat) && s in m.pageDir
    ensures DropSpace(m, s).Sized() && Allows(DropSpace(m, s), flat)
    ensures Plain(m) ==> Plain(DropSpace(m, s))
  {
    DropSpaceEntries(m, dirOwner, s);
    AllowsKept(m, DropSpace(m, s), flat, flat);
    hide Memory.Entry, DirsOwned, Allows;
  }

  /** An absent directory entry means the page is absent already. */
  lemma AbsentPage(m: Memory, flat: Flat, s: nat, page: nat, pte: Pte)
    requires m.Sized() && Translates(m, flat) && s in m.pageDir && page < PAGES
    requires P !in m.Entry(s, page / ENTRIES).flags && P !in pte.flags
    ensures Mapped(flat, s, page, pte) == flat
  {
    assert m.FindPte(s, page) == Lookup(flat, s, page);
  }

  class PageTables {
    var mem: Memory
    var dirFrames: Frames
    var tableFrames: Frames
    ghost var dirOwner: map<nat, nat>
    ghost var tableOwner: map<nat, Key>
    ghost var flat: Flat

    ghost predicate Valid()
      reads this
    {
      && Owned(mem, dirOwner, tableOwner)
      && Translates(mem, flat) && Allows(mem, flat) && Plain(mem)
      && dirFrames.Valid() && dirFrames.Outstanding() == mem.dirs.Keys
      && tableFrames.Valid() && tableFrames.Outstanding() == mem.tables.Keys
    }

    ghost predicate Has(space: nat)
      reads this
    {
      space in mem.pageDir
    }

    /** No table has been handed out or given back, and no directory entry has changed. */
    ghost predicate SameTables(was: Memory, wasFrames: Frames)
      reads this
    {
      mem.pageDir == was.pageDir && mem.dirs == was.dirs && tableFrames == wasFrames
    }

    constructor (dirFrames: Frames, tableFrames: Frames)
      requires dirFrames.Valid() && dirFrames.Outstanding() == {}
      requires tableFrames.Valid() && tableFrames.Outstanding() == {}
      ensures Valid() && mem == Memory(map[], map[], map[]) && flat == map[]
      ensures this.dirFrames == dirFrames && this.tableFrames == tableFrames
    {
      mem := Memory(map[], map[], map[]);
      this.dirFrames, this.tableFrames := dirFrames, tableFrames;
      dirOwner, tableOwner, flat := map[], map[], map[];
    }

    /** find_pte agrees with the flat map on every page of every space. */
    function FindPte(space: nat, page: nat): (pte: Option<Pte>)
      requires Valid() && Has(space) && page < PAGES
      reads this
      ensures pte == Lookup(flat, space, page)
      ensures pte.Some? ==> P in pte.value.flags
    {
      mem.FindPte(space, page)
    }

    /** map_page is one update of the flat map; it stops only when no page is left for a new table. */
    method MapPage(space: nat, page: nat, frame: nat, flags: Flags) returns (ok: bool)
      requires Valid() && Has(space) && page < PAGES
      modifies this
      ensures Valid() && mem.pageDir == old(mem.pageDir) && dirFrames == old(dirFrames)
      ensures ok ==> flat == Mapped(old(flat), space, page, Pte(frame, flags))
      ensures !ok ==> flat == old(flat) && tableFrames.Exhausted() && P in flags
      ensures OnlyWidened(old(mem), mem, space, page / ENTRIES)
      ensures ok && P in flags ==> var was := old(mem).Entry(space, page / ENTRIES).flags;
        mem.Entry(space, page / ENTRIES).flags == flags - {G, Dirty} + if P in was then was else {}
      ensures P !in flags && P !in old(mem).Entry(space, page / ENTRIES).flags ==> mem == old(mem)
      ensures flags == {} ==> SameTables(old(mem), old(tableFrames))
    {
      hide Owned, Translates, Mapped, Frames.Outstanding, OnlyWidened, Allows, DirsOwned, Plain;
      Known();
      var i := page / ENTRIES;
      if P !in mem.Entry(space, i).flags && P !in flags {
        AbsentPage(mem, flat, space, page, Pte(frame, flags));
        NothingWidened(mem, space, i);
        return true;
      }
      ok := EnsureTable(space, i, flags - {G, Dirty});
      if !ok {
        return;
      }
      Known();
      WriteKeeps(mem, dirOwner, tableOwner, flat, space, page, Pte(frame, flags));
      WriteWidens(old(mem), mem, space, i, mem.Entry(space, i).table, page % ENTRIES, Pte(frame, flags));
      NothingWidened(mem, space, i);
      WriteWidens(mem, mem, space, i, mem.Entry(space, i).table, page % ENTRIES, Pte(frame, flags));
      ghost var before := mem;
      mem := SetPte(mem, mem.Entry(space, i).table, page % ENTRIES, Pte(frame, flags));
      AllowsWrite(before, mem, flat, space, page, Pte(frame, flags));
      PlainWidened(before, mem, space, i, {});
      flat := Mapped(flat, space, page, Pte(frame, flags));
    }

    /** The directory's part of map_page: a table for the entry if it has none, and the flags. */
    method EnsureTable(space: nat, i: nat, flags: Flags) returns (ok: bool)
      requires Valid() && Has(space) && i < ENTRIES && (P in mem.Entry(space, i).flags || P in flags)
      requires flags !! {G, Dirty}
      modifies this
      ensures Valid() && flat == old(flat) && mem.pageDir == old(mem.pageDir) && dirFrames == old(dirFrames)
      ensures OnlyWidened(old(mem), mem, space, i)
      ensures ok ==> var was := old(mem).Entry(space, i).flags;
        mem.Entry(space, i).flags == flags + if P in was then was else {}
      ensures !ok ==> mem == old(mem) && tableFrames.Exhausted() && P in flags
      ensures flags == {} ==> SameTables(old(mem), old(tableFrames))
    {
      hide Owned, Translates, Frames.Outstanding, OnlyWidened, Allows, DirsOwned, Plain;
      Known();
      if P !in mem.Entry(space, i).flags {
        if tableFrames.Exhausted() {
          NothingWidened(mem, space, i);
          return false;
        }
        var table := tableFrames.Next();
        tableFrames := tableFrames.Alloc();
        InstallKeeps(mem, dirOwner, tableOwner, flat, space, i, table, flags);
        InstallWidens(mem, dirOwner, space, i, table, flags);
        mem := Install(mem, space, i, table, flags);
        tableOwner := tableOwner[table := (space, i)];
      } else {
        var pde := mem.Entry(space, i);
        WidenKeeps(mem, dirOwner, tableOwner, flat, space, i, flags);
        WidenWidens(mem, dirOwner, space, i, flags);
        if flags == {} {
          assert pde.flags + flags == pde.flags;
          SetSameEntry(mem, space, i);
        }
        mem := SetEntry(mem, space, i, pde.(flags := pde.flags + flags));
      }
      AllowsWidened(old(mem), mem, flat, space, i);
      PlainWidened(old(mem), mem, space, i, flags);
      ok := true;
    }

    lemma Known()
      requires Owned(mem, dirOwner, tableOwner)
      ensures mem.Sized() && DirsOwned(mem, dirOwner)
      ensures dirOwner.Keys == mem.dirs.Keys && tableOwner.Keys == mem.tables.Keys
      ensures forall s, i: nat :: Has(s) && i < ENTRIES && P in mem.Entry(s, i).flags ==>
        mem.Entry(s, i).table in mem.tables
    {
    }

    method CreateSpace(space: nat) returns (ok: bool)
      requires Valid() && !Has(space)
      modifies this
      ensures Valid() && flat == old(flat) && tableFrames == old(tableFrames)
      ensures ok ==> Has(space) && mem.pageDir.Keys == old(mem.pageDir.Keys) + {space}
      ensures ok ==> dirFrames.Outstanding() == old(dirFrames.Outstanding()) + {mem.pageDir[space]}
      ensures ok ==> mem.pageDir[space] !in old(dirFrames.Outstanding())
      ensures !ok ==> mem == old(mem) && dirFrames == old(dirFrames) && dirFrames.Exhausted()
    {
      hide Owned, Translates, Frames.Outstanding, Allows, DirsOwned, Plain;
      Known();
      if dirFrames.Exhausted() {
        return false;
      }
      var dir := dirFrames.Next();
      dirFrames := dirFrames.Alloc();
      NewSpaceKeeps(mem, dirOwner, tableOwner, flat, space, dir);
      NewSpaceAllows(mem, dirOwner, flat, space, dir);
      mem := NewSpace(mem, space, dir);
      dirOwner := dirOwner[dir := space];
      return true;
    }

    /** The tail of mem_destroy_space: gives back every table of the directory, then the directory. */
    method DestroySpace(space: nat)
      requires Valid() && Has(space)
      modifies this
      ensures Valid() && mem.pageDir == old(mem.pageDir) - {space}
      ensures flat == WithoutLow(old(flat), space, ENTRIES)
      ensures tableFrames.Outstanding() == old(tableFrames.Outstanding()) - old(TablesBelow(mem, space, ENTRIES))
      ensures dirFrames.Outstanding() == old(dirFrames.Outstanding()) - {old(mem.pageDir[space])}
    {
      hide Owned, Translates, Frames.Outstanding, WithoutLow, Memory.Entry, Allows, DirsOwned, Plain;
      Known();
      WithoutNone(flat, space);
      TablesBelowSteps(mem, space);
      for i := 0 to ENTRIES
        invariant Valid() && mem.pageDir == old(mem.pageDir) && dirFrames == old(dirFrames)
        invariant flat == WithoutLow(old(flat), space, i)
        invariant mem.Sized() && forall j: nat :: j < ENTRIES ==>
          mem.Entry(space, j) ==
            if j < i && P in old(mem).Entry(space, j).flags then Pde(0, {}) else old(mem).Entry(space, j)
        invariant tableFrames.Outstanding() == old(tableFrames.Outstanding()) - TablesBelow(old(mem), space, i)
      {
        DestroyEntry(space, i, old(flat));
        Known();
      }
      DropDirectory(space);
    }

    /** The directory goes back once it has no table left. */
    method DropDirectory(space: nat)
      requires Valid() && Has(space) && forall j: nat :: j < ENTRIES ==> P !in mem.Entry(space, j).flags
      modifies this
      ensures Valid() && mem.pageDir == old(mem.pageDir) - {space} && flat == old(flat)
      ensures tableFrames == old(tableFrames)
      ensures dirFrames.Outstanding() == old(dirFrames.Outstanding()) - {old(mem.pageDir[space])}
    {
      hide Owned, Translates, Frames.Outstanding, Memory.Entry, Allows, DirsOwned, Plain;
      Known();
      DropSpaceKeeps(mem, dirOwner, tableOwner, flat, space);
      DropSpaceAllows(mem, dirOwner, flat, space);
      dirFrames := dirFrames.Free(mem.pageDir[space]);
      dirOwner := dirOwner - {mem.pageDir[space]};
      mem := DropSpace(mem, space);
    }

    /** One turn of the loop over the directory. */
    method DestroyEntry(space: nat, i: nat, ghost all: Flat)
      requires Valid() && Has(space) && i < ENTRIES && flat == WithoutLow(all, space, i)
      modifies this
      ensures Valid() && mem.pageDir == old(mem.pageDir) && dirFrames == old(dirFrames)
      ensures flat == WithoutLow(all, space, i + 1)
      ensures forall j: nat :: j < ENTRIES && j != i ==> mem.Entry(space, j) == old(mem).Entry(space, j)
      ensures P in old(mem).Entry(space, i).flags ==>
        && mem.Entry(space, i) == Pde(0, {})
        && tableFrames.Outstanding() == old(tableFrames.Outstanding()) - {old(mem).Entry(space, i).table}
      ensures P !in old(mem).Entry(space, i).flags ==> mem == old(mem) && tableFrames == old(tableFrames)
    {
      hide Translates, Frames.Outstanding, WithoutLow, TablesOwned, DirsOwned, Allows, Plain;
      Known();
      if P !in mem.Entry(space, i).flags {
        SkipKeeps(mem, all, space, i);
      } else {
        var table := mem.Entry(space, i).table;
        DropKeeps(mem, dirOwner, tableOwner, all, space, i);
        DropAllows(mem, dirOwner, tableOwner, all, space, i);
        DropEntries(mem, dirOwner, tableOwner, space, i);
        tableFrames := tableFrames.Free(table);
        tableOwner := tableOwner - {table};
        mem := DropTable(mem, space, i);
      }
      flat := WithoutLow(all, space, i + 1);
    }
  }

  lemma WithoutNone(flat: Flat, s: nat)
    ensures WithoutLow(flat, s, 0) == flat
  {
  }

  lemma TablesBelowSteps(m: Memory, s: nat)
    requires m.Sized() && s in m.pageDir
    ensures TablesBelow(m, s, 0) == {}
    ensures forall i: nat :: i < ENTRIES ==>
      TablesBelow(m, s, i + 1) == TablesBelow(m, s, i) + if P in m.Entry(s, i).flags then {m.Entry(s, i).table} else {}
  {
  }
}
