/**
 The descriptor tables of kernel/filesystem.cc.

 Contexts hold descriptors, descriptors name opened files, and an opened file
 counts the descriptors that name it. `Counted` says that the count is always
 exact; `Ledger` says that the driver's close runs exactly once for each file
 that was opened, when its last descriptor goes.
 */
module Vfs {
  import opened Pools

  const ENOSUPPORT: int := -100
  const ENOENT: int := -200
  const ENOSPACE: int := -203
  const MAX_DESCRIPTORS: nat := 16

  datatype Result<+T> = Success(value: T) | Failure(error: int)

  /** The bits of a flag word; OPEN_RETAIN_EXEC is bit 4. */
  type OpenFlags = set<nat>

  datatype OpenedFile = OpenedFile(device: nat, handle: int, flags: OpenFlags, refCount: int)
  datatype Driver = Driver(hasOpen: bool, hasClose: bool)

  /** A descriptor in a context. */
  type Slot = (nat, nat)
  type Table = map<Slot, nat>
  type Files = map<nat, OpenedFile>

  /** The descriptors, over all contexts, that name file `f`. */
  ghost function Refs(table: Table, f: nat): set<Slot> {
    set k | k in table && table[k] == f
  }

  ghost predicate Counted(table: Table, files: Files) {
    && (forall k <- table :: table[k] in files)
    && (forall f <- files :: files[f].refCount == |Refs(table, f)| && files[f].refCount >= 1)
  }

  lemma RefsAdded(table: Table, k: Slot, f: nat)
    requires k !in table
    ensures |Refs(table[k := f], f)| == |Refs(table, f)| + 1
    ensures forall g :: g != f ==> Refs(table[k := f], g) == Refs(table, g)
  {
    assert Refs(table[k := f], f) == Refs(table, f) + {k};
  }

  lemma RefsRemoved(table: Table, k: Slot)
    requires k in table
    ensures |Refs(table - {k}, table[k])| == |Refs(table, table[k])| - 1
    ensures forall g :: g != table[k] ==> Refs(table - {k}, g) == Refs(table, g)
  {
    assert Refs(table - {k}, table[k]) == Refs(table, table[k]) - {k};
  }

  lemma NoRefs(table: Table, files: Files, f: nat)
    requires Counted(table, files) && f !in files
    ensures Refs(table, f) == {}
  {
  }

  lemma NoRefsLeft(table: Table, f: nat)
    requires |Refs(table, f)| == 0
    ensures forall k <- table :: table[k] != f
  {
    assert Refs(table, f) == {};
    assert forall k <- table :: k !in Refs(table, f);
  }

  /** A file opened with one descriptor. */
  lemma OpenKeeps(table: Table, files: Files, k: Slot, f: nat, file: OpenedFile)
    requires Counted(table, files) && k !in table && f !in files && file.refCount == 1
    ensures Counted(table[k := f], files[f := file])
  {
    RefsAdded(table, k, f);
    NoRefs(table, files, f);
    hide Refs;
  }

  /** One more descriptor for a file that is open. */
  lemma AliasKeeps(table: Table, files: Files, k: Slot, f: nat)
    requires Counted(table, files) && k !in table && f in files
    ensures Counted(table[k := f], files[f := files[f].(refCount := files[f].refCount + 1)])
  {
    RefsAdded(table, k, f);
    hide Refs;
  }

  /** The files after one descriptor for `f` is gone. */
  function Released(files: Files, f: nat): Files
    requires f in files
  {
    if files[f].refCount - 1 == 0 then files - {f} else files[f := files[f].(refCount := files[f].refCount - 1)]
  }

  lemma CloseKeeps(table: Table, files: Files, k: Slot)
    requires Counted(table, files) && k in table
    ensures Counted(table - {k}, Released(files, table[k]))
  {
    RefsRemoved(table, k);
    if files[table[k]].refCount == 1 {
      NoRefsLeft(table - {k}, table[k]);
    }
    hide Refs;
  }

  /** Serial numbers of opens: `serial` and `fileOf` relate live files to them, `closed` counts driver closes. */
  datatype Ledger = Ledger(opens: nat, serial: map<nat, nat>, fileOf: map<nat, nat>, closed: multiset<nat>) {
    ghost predicate Valid(files: set<nat>) {
      && serial.Keys == files
      && (forall f <- serial :: serial[f] < opens && serial[f] in fileOf && fileOf[serial[f]] == f)
      && (forall n <- fileOf :: fileOf[n] in serial && serial[fileOf[n]] == n)
      && (forall n: nat :: closed[n] == if n < opens && n !in fileOf then 1 else 0)
    }

    ghost function Open(f: nat): Ledger {
      Ledger(opens + 1, serial[f := opens], fileOf[opens := f], closed)
    }

    ghost function Close(f: nat): Ledger
      requires f in serial
    {
      Ledger(opens, serial - {f}, fileOf - {serial[f]}, closed + multiset{serial[f]})
    }

    /** Opening starts a serial that has not been closed. */
    lemma OpenKeeps(files: set<nat>, f: nat)
      requires Valid(files) && f !in files
      ensures Open(f).Valid(files + {f})
    {
      assert opens !in fileOf;
    }

    /** Closing a live file closes its serial for the first time. */
    lemma CloseKeeps(files: set<nat>, f: nat)
      requires Valid(files) && f in files
      ensures Close(f).Valid(files - {f})
      ensures closed[serial[f]] == 0 && Close(f).closed[serial[f]] == 1
    {
    }
  }

  type Contexts = PoolModel<PoolModel<nat>>

  ghost predicate ContextsValid(contexts: Contexts) {
    && contexts.Valid()
    && forall c <- contexts.items :: contexts.items[c].Valid() && contexts.items[c].capacity == MAX_DESCRIPTORS
  }

  /** `table` is the contexts' descriptors laid out flat. */
  ghost predicate Mirrors(contexts: Contexts, table: Table) {
    forall c: nat, fd: nat :: Descriptor(contexts, c, fd) == if (c, fd) in table then [table[(c, fd)]] else []
  }

  /** The file a descriptor names, as a sequence of at most one. */
  ghost function Descriptor(contexts: Contexts, c: nat, fd: nat): seq<nat> {
    if c in contexts.items && fd in contexts.items[c].items then [contexts.items[c].items[fd]] else []
  }

  function WithContext(contexts: Contexts, c: nat, descriptors: PoolModel<nat>): Contexts
    requires c in contexts.items
  {
    contexts.(items := contexts.items[c := descriptors])
  }

  lemma WithContextKeeps(contexts: Contexts, c: nat, descriptors: PoolModel<nat>)
    requires ContextsValid(contexts) && c in contexts.items && descriptors.Valid()
    requires descriptors.capacity == MAX_DESCRIPTORS
    ensures ContextsValid(WithContext(contexts, c, descriptors))
    ensures contexts.Emplace(c, descriptors) == WithContext(contexts, c, descriptors)
  {
  }

  lemma MirrorsErase(contexts: Contexts, table: Table, c: nat, fd: nat)
    requires ContextsValid(contexts) && Mirrors(contexts, table) && c in contexts.items && fd in contexts.items[c].items
    ensures (c, fd) in table && table[(c, fd)] == contexts.items[c].items[fd]
    ensures Mirrors(WithContext(contexts, c, contexts.items[c].Erase(fd)), table - {(c, fd)})
  {
    hide PoolModel.Valid, PoolModel.Erase;
    assert Descriptor(contexts, c, fd) == [contexts.items[c].items[fd]];
  }

  lemma MirrorsEmplace(contexts: Contexts, table: Table, c: nat, fd: nat, f: nat)
    requires ContextsValid(contexts) && Mirrors(contexts, table) && c in contexts.items && fd < MAX_DESCRIPTORS
    ensures (c, fd) in table <==> fd in contexts.items[c].items
    ensures Mirrors(WithContext(contexts, c, contexts.items[c].Emplace(fd, f)), table[(c, fd) := f])
  {
    hide PoolModel.Valid, PoolModel.Emplace;
    assert Descriptor(contexts, c, fd) == if (c, fd) in table then [table[(c, fd)]] else [];
  }

  lemma EraseContext(contexts: Contexts, table: Table, c: nat)
    requires ContextsValid(contexts) && Mirrors(contexts, table) && c in contexts.items && forall k <- table :: k.0 != c
    ensures contexts.Valid() && ContextsValid(contexts.Erase(c)) && Mirrors(contexts.Erase(c), table)
  {
    hide PoolModel.Valid, PoolModel.Erase;
  }

  lemma EraseShrinks<T>(p: PoolModel<T>, i: nat)
    requires p.Valid() && i in p.items
    ensures p.Erase(i).watermark <= p.watermark
  {
  }

  lemma MirrorsNew(contexts: Contexts, table: Table)
    requires ContextsValid(contexts) && Mirrors(contexts, table) && !contexts.Full()
    ensures var r := contexts.EmplaceAnywhere(Empty(MAX_DESCRIPTORS));
      ContextsValid(r) && Mirrors(r, table)
    ensures forall k <- table :: k.0 != contexts.Slot()
  {
    hide PoolModel.Valid, PoolModel.Emplace, PoolModel.EmplaceAnywhere;
    forall k | k in table
      ensures k.0 in contexts.items
    {
      assert Descriptor(contexts, k.0, k.1) == [table[k]];
    }
  }

  lemma LedgerKeys(ledger: Ledger, files: set<nat>)
    requires ledger.Valid(files)
    ensures ledger.serial.Keys == files
  {
  }

  lemma EraseKeys<T>(p: PoolModel<T>, i: nat)
    requires p.Valid() && i in p.items
    ensures p.Erase(i).items.Keys == p.items.Keys - {i}
  {
  }

  lemma EmplaceKeys<T>(p: PoolModel<T>, i: nat, x: T)
    requires p.Valid() && i in p.items && i < p.capacity
    ensures p.Emplace(i, x).items.Keys == p.items.Keys
  {
  }

  lemma EmplaceAnywhereKeys<T>(p: PoolModel<T>, x: T)
    requires p.Valid() && !p.Full()
    ensures p.EmplaceAnywhere(x).items.Keys == p.items.Keys + {p.Slot()}
  {
    hide PoolModel.Valid, PoolModel.EmplaceAnywhere, PoolModel.Slot;
  }

  lemma CountIs(table: Table, files: Files, f: nat)
    requires Counted(table, files) && f in files
    ensures files[f].refCount == |Refs(table, f)|
  {
  }

  lemma LiveSlot<T>(p: PoolModel<T>, i: nat)
    requires p.Valid() && i in p.items
    ensures i < p.capacity
  {
  }

  /** Only the descriptors of `c` differ. */
  ghost predicate Same(was: Contexts, contexts: Contexts, c: nat) {
    && contexts.items.Keys == was.items.Keys
    && forall t <- was.items :: t != c ==> contexts.items[t] == was.items[t]
  }

  /** Files that are still open are the files they were, up to their counts. */
  ghost predicate FilesKept(was: Files, files: Files) {
    forall f <- files :: f in was && files[f].(refCount := was[f].refCount) == was[f]
  }

  /** No file has been opened, and live files keep their serials. */
  ghost predicate LedgerKept(was: Ledger, ledger: Ledger) {
    ledger.opens == was.opens && forall f <- ledger.serial :: f in was.serial && ledger.serial[f] == was.serial[f]
  }

  lemma ReleasedKept(files: Files, ledger: Ledger, f: nat)
    requires f in files && f in ledger.serial
    ensures FilesKept(files, Released(files, f)) && LedgerKept(ledger, ledger) && LedgerKept(ledger, ledger.Close(f))
  {
  }

  lemma KeptRefl(contexts: Contexts, files: Files, ledger: Ledger, c: nat)
    ensures Same(contexts, contexts, c) && FilesKept(files, files) && LedgerKept(ledger, ledger)
  {
  }

  lemma KeptTrans(c0: Contexts, c1: Contexts, c2: Contexts, f0: Files, f1: Files, f2: Files,
                  l0: Ledger, l1: Ledger, l2: Ledger, c: nat)
    requires Same(c0, c1, c) && FilesKept(f0, f1) && LedgerKept(l0, l1)
    requires Same(c1, c2, c) && FilesKept(f1, f2) && LedgerKept(l1, l2)
    ensures Same(c0, c2, c) && FilesKept(f0, f2) && LedgerKept(l0, l2)
  {
  }

  lemma KeptFlags(was: Files, files: Files, f: nat, keep: OpenFlags)
    requires FilesKept(was, files) && f in files
    ensures Closing(was, f, keep) <==> files[f].flags * keep == {}
  {
  }

  /** `table` with the descriptors of `src` below `i` given to `dst` as well. */
  ghost function ForkTable(table: Table, src: nat, dst: nat, i: nat): Table {
    map k | k in table.Keys + (set l | l in table && l.0 == src && l.1 < i :: (dst, l.1)) ::
      if k in table then table[k] else table[(src, k.1)]
  }

  lemma ForkTableStep(table: Table, src: nat, dst: nat, i: nat)
    requires forall k <- table :: k.0 != dst
    ensures ForkTable(table, src, dst, 0) == table
    ensures (src, i) in table ==>
      ForkTable(table, src, dst, i + 1) == ForkTable(table, src, dst, i)[(dst, i) := table[(src, i)]]
    ensures (src, i) !in table ==> ForkTable(table, src, dst, i + 1) == ForkTable(table, src, dst, i)
    ensures (src, i) in ForkTable(table, src, dst, i) <==> (src, i) in table
    ensures (src, i) in table ==> ForkTable(table, src, dst, i)[(src, i)] == table[(src, i)]
  {
  }

  lemma ForkedSlot(table: Table, src: nat, dst: nat, i: nat, fd: nat)
    requires (forall k <- table :: k.0 != dst) && src != dst
    ensures (src, fd) in ForkTable(table, src, dst, i) <==> (src, fd) in table
    ensures (dst, fd) in ForkTable(table, src, dst, i) <==> (src, fd) in table && fd < i
    ensures (src, fd) in table ==> ForkTable(table, src, dst, i)[(src, fd)] == table[(src, fd)]
    ensures (src, fd) in table && fd < i ==> ForkTable(table, src, dst, i)[(dst, fd)] == table[(src, fd)]
  {
  }

  /** `table` without the descriptors of `c` below `i` whose file has none of the flags in `keep`. */
  ghost function Retained(table: Table, files: Files, c: nat, keep: OpenFlags, i: nat): Table {
    map k | k in table && !(k.0 == c && k.1 < i && Closing(files, table[k], keep)) :: table[k]
  }

  ghost predicate Closing(files: Files, f: nat, keep: OpenFlags) {
    f in files && files[f].flags * keep == {}
  }

  lemma RetainedStep(table: Table, files: Files, c: nat, keep: OpenFlags, i: nat)
    ensures Retained(table, files, c, keep, 0) == table
    ensures (c, i) in table && Closing(files, table[(c, i)], keep) ==>
      Retained(table, files, c, keep, i + 1) == Retained(table, files, c, keep, i) - {(c, i)}
    ensures !((c, i) in table && Closing(files, table[(c, i)], keep)) ==>
      Retained(table, files, c, keep, i + 1) == Retained(table, files, c, keep, i)
    ensures (c, i) in Retained(table, files, c, keep, i) <==> (c, i) in table
    ensures (c, i) in table ==> Retained(table, files, c, keep, i)[(c, i)] == table[(c, i)]
  {
    hide Closing;
  }

  class Vfs {
    const drivers: map<nat, Driver>
    var contexts: Contexts
    var files: PoolModel<OpenedFile>
    ghost var table: Table
    ghost var ledger: Ledger

    ghost predicate Valid()
      reads this
    {
      && ContextsValid(contexts) && files.Valid()
      && Mirrors(contexts, table)
      && Counted(table, files.items)
      && ledger.Valid(files.items.Keys)
      && forall f <- files.items :: files.items[f].device in drivers
    }

    constructor (drivers: map<nat, Driver>, maxContexts: nat, maxFiles: nat)
      ensures Valid() && this.drivers == drivers && table == map[] && ledger == Ledger(0, map[], map[], multiset{})
    {
      this.drivers := drivers;
      contexts, files := Empty(maxContexts), Empty(maxFiles);
      table, ledger := map[], Ledger(0, map[], map[], multiset{});
    }

    /** vfs_close. `closeResult` is what the driver's close returns, if it is called. */
    method Close(c: nat, fd: nat, closeResult: int) returns (r: int)
      requires Valid() && c in contexts.items && fd in contexts.items[c].items
      modifies this
      ensures contexts == WithContext(old(contexts), c, old(contexts).items[c].Erase(fd))
      ensures table == old(table) - {(c, fd)}
      ensures var f := old(contexts).items[c].items[fd]; f in old(files).items && f in old(ledger).serial
      ensures var f := old(contexts).items[c].items[fd];
        && files.items == Released(old(files).items, f)
        && if |Refs(old(table), f)| == 1
           then
             && ledger == old(ledger).Close(f)
             && r == if drivers[old(files).items[f].device].hasClose then closeResult else 0
           else ledger == old(ledger) && r == 0
      ensures Same(old(contexts), contexts, c) && FilesKept(old(files).items, files.items)
      ensures LedgerKept(old(ledger), ledger)
      ensures Valid()
    {
      hide PoolModel.Valid, PoolModel.Erase, PoolModel.Emplace, Mirrors, Ledger.Valid, Refs, FilesKept, LedgerKept;
      hide Counted;
      var f := contexts.items[c].items[fd];
      MirrorsErase(contexts, table, c, fd);
      Looked(c, fd);
      CountIs(table, files.items, f);
      CloseKeeps(table, files.items, (c, fd));
      LedgerKeys(ledger, files.items.Keys);
      WithContextKeeps(contexts, c, contexts.items[c].Erase(fd));
      var file := files.items[f];
      ReleasedKept(files.items, ledger, f);
      contexts := WithContext(contexts, c, contexts.items[c].Erase(fd));
      table := table - {(c, fd)};
      if file.refCount - 1 == 0 {
        r := if drivers[file.device].hasClose then closeResult else 0;
        ledger.CloseKeeps(files.items.Keys, f);
        EraseKeys(files, f);
        files := files.Erase(f);
        ledger := ledger.Close(f);
      } else {
        LiveSlot(files, f);
        EmplaceKeys(files, f, file.(refCount := file.refCount - 1));
        files := files.Emplace(f, file.(refCount := file.refCount - 1));
        r := 0;
      }
    }

    /** vfs_alias_fd, which is also dup2. */
    method AliasFd(srcCtx: nat, srcFd: nat, dstCtx: nat, dstFd: nat, closeResult: int) returns (r: int)
      requires Valid() && srcCtx in contexts.items && dstCtx in contexts.items
      requires srcFd in contexts.items[srcCtx].items ==> dstFd < MAX_DESCRIPTORS
      modifies this
      ensures srcFd !in old(contexts).items[srcCtx].items ==>
        r == ENOENT && contexts == old(contexts) && files == old(files) && table == old(table) && ledger == old(ledger)
      ensures srcFd in old(contexts).items[srcCtx].items ==>
        && r == 0 && (srcCtx, srcFd) in old(table)
        && table == old(table)[(dstCtx, dstFd) := old(table)[(srcCtx, srcFd)]]
      ensures Same(old(contexts), contexts, dstCtx)
      ensures FilesKept(old(files).items, files.items) && LedgerKept(old(ledger), ledger)
      ensures Valid()
    {
      hide Valid, PoolModel.Valid, PoolModel.Erase, PoolModel.Emplace, Refs;
      if srcFd !in contexts.items[srcCtx].items {
        return ENOENT;
      }
      Looked(srcCtx, srcFd);
      var f := contexts.items[srcCtx].items[srcFd];
      if dstFd in contexts.items[dstCtx].items {
        Looked(dstCtx, dstFd);
        if contexts.items[dstCtx].items[dstFd] == f {
          assert table == table[(dstCtx, dstFd) := f];
          return 0;
        }
        var ignored := Close(dstCtx, dstFd, closeResult);
      }
      AddAlias(f, dstCtx, dstFd);
      return 0;
    }

    /** vfs_create_context. */
    method CreateContext() returns (r: Result<nat>)
      requires Valid()
      modifies this`contexts
      ensures r.Failure? <==> old(contexts).Full()
      ensures r.Failure? ==> r.error == ENOSPACE && contexts == old(contexts)
      ensures r.Success? ==> r.value == old(contexts).Slot() && r.value !in old(contexts).items
      ensures r.Success? ==> contexts == old(contexts).EmplaceAnywhere(Empty(MAX_DESCRIPTORS))
      ensures r.Success? ==> forall k <- table :: k.0 != r.value
      ensures Valid()
    {
      hide PoolModel.Valid, PoolModel.Emplace, Mirrors, Ledger.Valid, Refs, Counted;
      if contexts.Full() {
        return Failure(ENOSPACE);
      }
      contexts.SlotIsFresh();
      MirrorsNew(contexts, table);
      r := Success(contexts.Slot());
      contexts := contexts.EmplaceAnywhere(Empty(MAX_DESCRIPTORS));
    }

    /** vfs_open, with the device the path leads to and the handle its driver returns. */
    method Open(c: nat, device: nat, flags: OpenFlags, handle: int) returns (r: Result<nat>)
      requires Valid() && c in contexts.items && device in drivers
      requires drivers[device].hasOpen && handle >= 0 ==> !files.Full() && !contexts.items[c].Full()
      modifies this
      ensures r.Failure? <==> !drivers[device].hasOpen || handle < 0
      ensures r.Failure? ==> r.error == if !drivers[device].hasOpen then ENOSUPPORT else handle
      ensures r.Failure? ==>
        contexts == old(contexts) && files == old(files) && table == old(table) && ledger == old(ledger)
      ensures r.Success? ==>
        && r.value !in old(contexts).items[c].items
        && contexts == WithContext(old(contexts), c, old(contexts).items[c].EmplaceAnywhere(old(files).Slot()))
        && files == old(files).EmplaceAnywhere(OpenedFile(device, handle, flags, 1))
        && table == old(table)[(c, r.value) := old(files).Slot()]
        && ledger == old(ledger).Open(old(files).Slot())
      ensures Valid()
    {
      hide PoolModel.Valid, PoolModel.Emplace, PoolModel.Slot, Mirrors, Ledger.Valid, Refs, Counted;
      if !drivers[device].hasOpen {
        return Failure(ENOSUPPORT);
      }
      if handle < 0 {
        return Failure(handle);
      }
      var f := files.Slot();
      var fd := contexts.items[c].Slot();
      var file := OpenedFile(device, handle, flags, 1);
      files.SlotIsFresh();
      contexts.items[c].SlotIsFresh();
      MirrorsEmplace(contexts, table, c, fd, f);
      WithContextKeeps(contexts, c, contexts.items[c].EmplaceAnywhere(f));
      OpenKeeps(table, files.items, (c, fd), f, file);
      ledger.OpenKeeps(files.items.Keys, f);
      EmplaceAnywhereKeys(files, file);
      files := files.EmplaceAnywhere(file);
      contexts := WithContext(contexts, c, contexts.items[c].EmplaceAnywhere(f));
      table := table[(c, fd) := f];
      ledger := ledger.Open(f);
      return Success(fd);
    }

    /** vfs_fork_context: the child has the same descriptor table as its source. */
    method ForkContext(src: nat) returns (r: Result<nat>)
      requires Valid() && (!contexts.Full() ==> src in contexts.items)
      modifies this
      ensures r.Failure? <==> old(contexts).Full()
      ensures r.Failure? ==>
        r.error == ENOSPACE && contexts == old(contexts) && table == old(table) && files == old(files)
      ensures r.Success? ==>
        r.value !in old(contexts).items && contexts.items.Keys == old(contexts).items.Keys + {r.value}
      ensures r.Success? ==> forall c <- old(contexts).items :: contexts.items[c] == old(contexts).items[c]
      ensures r.Success? ==> contexts.items[r.value].items == old(contexts).items[src].items
      ensures r.Success? ==> table == ForkTable(old(table), src, r.value, old(contexts).items[src].watermark)
      ensures FilesKept(old(files).items, files.items) && LedgerKept(old(ledger), ledger)
      ensures Valid()
    {
      hide Valid, PoolModel.Valid, PoolModel.Emplace, Refs, ForkTable;
      r := CreateContext();
      if r.Failure? {
        return;
      }
      var dst := r.value;
      var watermark := contexts.items[src].watermark;
      ForkTableStep(table, src, dst, 0);
      var i := 0;
      while i < watermark
        invariant 0 <= i <= watermark && Valid()
        invariant contexts.items.Keys == old(contexts).items.Keys + {dst}
        invariant forall c <- old(contexts).items :: contexts.items[c] == old(contexts).items[c]
        invariant table == ForkTable(old(table), src, dst, i)
        invariant FilesKept(old(files).items, files.items) && LedgerKept(old(ledger), ledger)
      {
        ForkTableStep(old(table), src, dst, i);
        Tabled(src, i);
        if i in contexts.items[src].items {
          var ignored := AliasFd(src, i, dst, i, 0);
        }
        i := i + 1;
      }
      ForkedEqual(old(table), src, dst, watermark);
    }

    /** vfs_close_not_matching: closes the descriptors whose file has none of the flags in `keep`. */
    method CloseNotMatching(c: nat, keep: OpenFlags)
      requires Valid() && c in contexts.items
      modifies this
      ensures Same(old(contexts), contexts, c)
      ensures table == Retained(old(table), old(files).items, c, keep, MAX_DESCRIPTORS)
      ensures FilesKept(old(files).items, files.items) && LedgerKept(old(ledger), ledger)
      ensures Valid()
    {
      hide Valid, PoolModel.Valid, PoolModel.Erase, Refs, Retained, Same, FilesKept, LedgerKept;
      RetainedStep(table, files.items, c, keep, 0);
      KeptRefl(contexts, files.items, ledger, c);
      var i := 0;
      while i < contexts.items[c].watermark
        invariant Valid() && c in contexts.items && i <= MAX_DESCRIPTORS
        invariant table == Retained(old(table), old(files).items, c, keep, i)
        invariant Same(old(contexts), contexts, c) && FilesKept(old(files).items, files.items)
        invariant LedgerKept(old(ledger), ledger)
        decreases contexts.items[c].watermark - i
      {
        RetainedStep(old(table), old(files).items, c, keep, i);
        Tabled(c, i);
        ghost var was, wasFiles, wasLedger := contexts, files.items, ledger;
        if i in contexts.items[c].items {
          KeptFlags(old(files).items, files.items, contexts.items[c].items[i], keep);
          if files.items[contexts.items[c].items[i]].flags * keep == {} {
            EraseShrinks(contexts.items[c], i);
            var ignored := Close(c, i, 0);
            KeptTrans(old(contexts), was, contexts, old(files).items, wasFiles, files.items, old(ledger), wasLedger,
                      ledger, c);
          }
        }
        i := i + 1;
      }
      AllSeen(old(table), old(files).items, c, keep, i);
    }

    /** vfs_destroy_context: closes every descriptor (none has a flag of the empty set), then erases the context. */
    method DestroyContext(c: nat)
      requires Valid() && c in contexts.items
      modifies this
      ensures contexts.items == old(contexts).items - {c}
      ensures table == map k | k in old(table) && k.0 != c :: old(table)[k]
      ensures FilesKept(old(files).items, files.items) && LedgerKept(old(ledger), ledger)
      ensures Valid()
    {
      hide PoolModel.Valid, PoolModel.Erase, Mirrors, Counted, Ledger.Valid, Retained;
      RetainedZero(c);
      CloseNotMatching(c, {});
      EraseContext(contexts, table, c);
      contexts := contexts.Erase(c);
    }

    /** The descriptor of `table` is the one in the context. */
    lemma Looked(c: nat, fd: nat)
      requires Valid() && c in contexts.items && fd in contexts.items[c].items
      ensures (c, fd) in table && table[(c, fd)] == contexts.items[c].items[fd]
      ensures contexts.items[c].items[fd] in files.items
    {
      assert Descriptor(contexts, c, fd) == [contexts.items[c].items[fd]];
    }

    lemma Tabled(c: nat, fd: nat)
      requires Valid() && c in contexts.items
      ensures (c, fd) in table <==> fd in contexts.items[c].items
      ensures fd in contexts.items[c].items ==>
        table[(c, fd)] == contexts.items[c].items[fd] && table[(c, fd)] in files.items
      ensures contexts.items[c].Valid() && contexts.items[c].watermark <= MAX_DESCRIPTORS
      ensures fd in contexts.items[c].items ==> fd < contexts.items[c].watermark
    {
      assert Descriptor(contexts, c, fd) == if (c, fd) in table then [table[(c, fd)]] else [];
    }

    /** Every file lacks every flag of the empty set. */
    lemma RetainedZero(c: nat)
      requires Valid() && c in contexts.items
      ensures Retained(table, files.items, c, {}, MAX_DESCRIPTORS) == map k | k in table && k.0 != c :: table[k]
    {
      forall k | k in table && k.0 == c
        ensures k.1 < MAX_DESCRIPTORS && Closing(files.items, table[k], {})
      {
        Tabled(c, k.1);
      }
      hide Closing;
    }

    /** Past the watermark there is no descriptor left to look at. */
    lemma AllSeen(was: Table, wasFiles: Files, c: nat, keep: OpenFlags, i: nat)
      requires Valid() && c in contexts.items && contexts.items[c].watermark <= i <= MAX_DESCRIPTORS
      requires table == Retained(was, wasFiles, c, keep, i)
      ensures table == Retained(was, wasFiles, c, keep, MAX_DESCRIPTORS)
    {
      forall k | k in was && k.0 == c
        ensures k.1 < i
      {
        if k.1 >= i {
          assert k in table;
          Tabled(c, k.1);
        }
      }
    }

    /** Once all of its slots are aliased, the new context equals its source. */
    lemma ForkedEqual(was: Table, src: nat, dst: nat, watermark: nat)
      requires Valid() && src in contexts.items && dst in contexts.items && watermark == contexts.items[src].watermark
      requires (forall k <- was :: k.0 != dst) && src != dst && table == ForkTable(was, src, dst, watermark)
      ensures contexts.items[dst].items == contexts.items[src].items
    {
      hide ForkTable, Valid, PoolModel.Valid;
      forall fd: nat
        ensures fd in contexts.items[dst].items <==> fd in contexts.items[src].items
        ensures fd in contexts.items[src].items ==> contexts.items[dst].items[fd] == contexts.items[src].items[fd]
      {
        Tabled(src, fd);
        Tabled(dst, fd);
        ForkedSlot(was, src, dst, watermark, fd);
      }
    }

    /** The tail of vfs_alias_fd: a new descriptor for an open file. */
    method AddAlias(f: nat, c: nat, fd: nat)
      requires Valid() && f in files.items && c in contexts.items && fd !in contexts.items[c].items
      requires fd < MAX_DESCRIPTORS
      modifies this
      ensures contexts == WithContext(old(contexts), c, old(contexts).items[c].Emplace(fd, f))
      ensures table == old(table)[(c, fd) := f] && ledger == old(ledger)
      ensures files.items == old(files).items[f := old(files).items[f].(refCount := old(files).items[f].refCount + 1)]
      ensures Valid()
    {
      hide PoolModel.Valid, PoolModel.Erase, PoolModel.Emplace, Mirrors, Ledger.Valid, Refs, Counted;
      MirrorsEmplace(contexts, table, c, fd, f);
      AliasKeeps(table, files.items, (c, fd), f);
      WithContextKeeps(contexts, c, contexts.items[c].Emplace(fd, f));
      LiveSlot(files, f);
      contexts := WithContext(contexts, c, contexts.items[c].Emplace(fd, f));
      table := table[(c, fd) := f];
      EmplaceKeys(files, f, files.items[f].(refCount := files.items[f].refCount + 1));
      files := files.Emplace(f, files.items[f].(refCount := files.items[f].refCount + 1));
    }
  }
}
