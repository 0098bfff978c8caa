/**
 The address spaces of kernel/memory.cc: areas, demand paging, portals, fork and destruction.

 Every operation keeps `Valid`, whose heart is `Ownership.Sound`: areas of a space
 are disjoint, and pages of anonymous and file areas own their frames one to one
 with the frames the allocator has outstanding, across all spaces.

 An operation returns false where the source's asserts stop the kernel because a
 pool or an allocator is used up; `Depleted` names those of the model. The 16-slot
 pools of linear and of file maps in a space, which can run out too, are not part of it.
 Addresses are page numbers, except the faulting address of `PageFault`.
 */
module AddressSpaces {
  import opened Bytes
  import opened Pools
  import opened PageAlloc
  import opened Paging
  import opened Ownership

  type Content = seq<byte>

  const MAX_AREAS: nat := 32
  const COPY_SOURCE: nat := 0xFFFE0
  const COPY_DEST: nat := 0xFFFE1

  type SpacePool = PoolModel<PoolModel<Area>>

  ghost function View(spaces: SpacePool): Spaces {
    map s | s in spaces.items :: spaces.items[s].items
  }

  ghost predicate PoolsValid(spaces: SpacePool) {
    spaces.Valid() && forall s <- spaces.items :: spaces.items[s].Valid()
  }

  function WithPool(spaces: SpacePool, s: nat, areas: PoolModel<Area>): (r: SpacePool)
    requires s in spaces.items
    ensures View(r) == WithAreas(View(spaces), s, areas.items)
    ensures r.Full() <==> spaces.Full()
  {
    spaces.(items := spaces.items[s := areas])
  }

  /** Writing to a live slot is the pool's own emplace, and keeps both levels of pools valid. */
  lemma WithPoolIsEmplace(spaces: SpacePool, s: nat, areas: PoolModel<Area>)
    requires PoolsValid(spaces) && s in spaces.items && areas.Valid()
    ensures PoolsValid(WithPool(spaces, s, areas))
    ensures spaces.Emplace(s, areas) == WithPool(spaces, s, areas)
  {
    hide View, WithAreas;
  }

  /** A page table entry allows exactly what the flags of an area say. */
  ghost predicate Grants(pte: Flags, flags: set<AreaFlag>) {
    && P in pte
    && (RW in pte <==> READWRITE in flags)
    && (U in pte <==> USER in flags)
    && (D in pte <==> CACHE_DISABLED in flags)
    && (G in pte <==> GLOBAL in flags)
    && pte <= {P, RW, U, D, G}
  }

  /** page_flags: how the flags of an area show in its page table entries. */
  function PageFlags(flags: set<AreaFlag>): (r: Flags)
    ensures P in r && Grants(r, flags)
  {
    {P}
    + (if READWRITE in flags then {RW} else {})
    + (if USER in flags then {U} else {})
    + (if CACHE_DISABLED in flags then {D} else {})
    + (if GLOBAL in flags then {G} else {})
  }

  lemma NothingYet(maxSpaces: nat)
    ensures PoolsValid(Empty(maxSpaces)) && View(Empty(maxSpaces)) == map[] && Sound(map[], map[], map[])
  {
  }

  class AddressSpaces {
    const paging: PageTables
    var spaces: SpacePool
    var current: nat
    /** The frames user pages are drawn from (user_space_allocator). */
    var frames: Frames
    var ram: map<nat, Content>
    ghost var owner: map<nat, Key>

    ghost predicate Valid()
      reads this, paging
    {
      && paging.Valid() && PoolsValid(spaces) && frames.Valid()
      && paging.mem.pageDir.Keys == spaces.items.Keys
      && Sound(View(spaces), paging.flat, owner)
      && owner.Keys == frames.Outstanding()
      && RamCovers(ram, frames)
    }

    /** Present pages allow exactly what their areas say. */
    ghost predicate AsAreasSay()
      reads this, paging
    {
      Granting(View(spaces), paging.flat)
    }

    /** Something the kernel allocates from is used up. */
    ghost predicate Depleted()
      reads this, paging
    {
      || frames.Exhausted() || paging.tableFrames.Exhausted() || paging.dirFrames.Exhausted() || spaces.Full()
      || exists s :: s in spaces.items && spaces.items[s].Full()
    }

    constructor (dirFrames: Frames, tableFrames: Frames, frames: Frames, maxSpaces: nat, ram: map<nat, Content>)
      requires dirFrames.Valid() && dirFrames.Outstanding() == {}
      requires tableFrames.Valid() && tableFrames.Outstanding() == {}
      requires frames.Valid() && frames.Outstanding() == {} && RamCovers(ram, frames)
      ensures Valid() && fresh(paging) && spaces == Empty(maxSpaces) && paging.flat == map[]
      ensures paging.dirFrames == dirFrames && paging.tableFrames == tableFrames
      ensures this.frames == frames && this.ram == ram && owner == map[] && current == maxSpaces && AsAreasSay()
    {
      hide PageTables.Valid, PoolsValid, Sound, RamCovers, View, Frames.Valid, Frames.Outstanding, Empty;
      NothingYet(maxSpaces);
      paging := new PageTables(dirFrames, tableFrames);
      spaces := Empty(maxSpaces);
      current := maxSpaces;
      this.frames, this.ram := frames, ram;
      owner := map[];
    }

    /**
     mem_activate_space and mem_set_current_space: `s` is the space that scratch pages, faults and portals
     belong to.
     */
    method Activate(s: nat)
      requires Valid() && s in spaces.items
      modifies this`current
      ensures Valid() && current == s
    {
      hide PoolsValid, Sound, RamCovers, View, PageTables.Valid, Frames.Valid;
      current := s;
    }

    /** Puts a fresh frame into an absent page of an anonymous or file area. */
    method ClaimPage(s: nat, page: nat, flags: Flags) returns (ok: bool, frame: nat)
      requires Valid() && page < PAGES && P in flags
      requires Owning(View(spaces), (s, page)) && (s, page) !in paging.flat
      modifies paging, this`frames, this`owner
      ensures ok ==> Valid() && paging.flat == old(paging.flat)[(s, page) := Pte(frame, flags)]
      ensures ok ==> !old(frames).Exhausted() && frame == old(frames).Next() && frames == old(frames).Alloc()
      ensures ok ==> frame !in old(owner) && owner == old(owner)[frame := (s, page)]
      ensures !ok ==> Depleted()
    {
      hide PageTables.Valid, PoolsValid, Sound, Frames.Outstanding, Frames.Valid, OwningPage;
      if frames.Exhausted() {
        return false, 0;
      }
      frame := frames.Next();
      frames := frames.Alloc();
      ok := paging.MapPage(s, page, frame, flags);
      if ok {
        ClaimKeeps(View(spaces), old(paging.flat), owner, (s, page), Pte(frame, flags));
        owner := owner[frame := (s, page)];
      }
    }

    /** Maps or unmaps a page that owns nothing: a scratch page, or one of a linear area. */
    method Borrow(s: nat, page: nat, frame: nat, flags: Flags) returns (ok: bool)
      requires Valid() && page < PAGES && s in spaces.items
      requires !OwningPage(View(spaces)[s], page) && (page >= SCRATCH || Covered(View(spaces)[s], page))
      modifies paging
      ensures ok ==> Valid() && paging.flat == Mapped(old(paging.flat), s, page, Pte(frame, flags))
      ensures !ok ==> Depleted() && P in flags
      ensures flags == {} ==> paging.SameTables(old(paging.mem), old(paging.tableFrames))
    {
      hide PageTables.Valid, PoolsValid, Sound, Frames.Outstanding, Frames.Valid, OwningPage, Covered;
      ok := paging.MapPage(s, page, frame, flags);
      BorrowKeeps(View(spaces), old(paging.flat), owner, (s, page), Pte(frame, flags));
    }

    method CreateSpace() returns (ok: bool, s: nat)
      requires Valid()
      modifies paging, this`spaces
      ensures ok ==> paging.flat == old(paging.flat)
      ensures ok ==> s !in old(spaces).items && !old(spaces).Full() && s == old(spaces).Slot()
      ensures ok ==> spaces == old(spaces).EmplaceAnywhere(Empty(MAX_AREAS))
      ensures ok ==> Valid()
      ensures ok && old(AsAreasSay()) ==> AsAreasSay()
      ensures !ok ==> Depleted()
    {
      hide PageTables.Valid, Sound, Frames.Outstanding, Frames.Valid, View, PoolModel.Valid;
      hide PoolModel.EmplaceAnywhere, Empty, Granting;
      if spaces.Full() {
        return false, 0;
      }
      s := spaces.Slot();
      spaces.SlotIsFresh();
      ok := paging.CreateSpace(s);
      if ok {
        ViewKeys(spaces);
        AddSpaceKeeps(View(spaces), paging.flat, owner, s);
        AddPool(spaces, Empty(MAX_AREAS));
        spaces := spaces.EmplaceAnywhere(Empty(MAX_AREAS));
        if old(AsAreasSay()) {
          SoundIsOk(old(View(spaces)), old(paging.flat), owner);
          NothingInSpace(old(View(spaces)), paging.flat, s);
        }
      }
    }

    /** The area that covers a page, if any: the source's scan over the pool. */
    method FindArea(s: nat, page: nat) returns (a: Option<nat>)
      requires Valid() && s in spaces.items
      ensures a.Some? ==> a.value in spaces.items[s].items && spaces.items[s].items[a.value].Covers(page)
      ensures a.None? ==> !Covered(View(spaces)[s], page)
    {
      hide PageTables.Valid, Sound, Frames.Outstanding, Frames.Valid;
      var areas := spaces.items[s];
      for i := 0 to areas.watermark
        invariant forall b :: 0 <= b < i && b in areas.items ==> !areas.items[b].Covers(page)
      {
        if i in areas.items && areas.items[i].Covers(page) {
          return Some(i);
        }
      }
      return None;
    }

    method OverlapsExisting(s: nat, start: nat, end: nat) returns (found: bool)
      requires Valid() && s in spaces.items
      ensures found <==> exists b ::
        b in spaces.items[s].items && Area(start, end, Anonymous, {}).Overlaps(spaces.items[s].items[b])
    {
      hide PageTables.Valid, Sound, Frames.Outstanding, Frames.Valid;
      var areas := spaces.items[s];
      for i := 0 to areas.watermark
        invariant forall b :: 0 <= b < i && b in areas.items ==>
          !Area(start, end, Anonymous, {}).Overlaps(areas.items[b])
      {
        if i in areas.items && start < areas.items[i].end && end > areas.items[i].start {
          return true;
        }
      }
      return false;
    }

    /** mem_map_alloc, mem_map_fd and mem_map_linear: a new area, without any page yet. */
    method MapArea(s: nat, area: Area) returns (ok: bool, a: nat)
      requires Valid() && s in spaces.items && area.Allowed()
      requires forall b <- spaces.items[s].items :: !area.Overlaps(spaces.items[s].items[b])
      modifies this`spaces
      ensures ok ==> Valid() && a !in old(spaces).items[s].items && !old(spaces).items[s].Full()
      ensures ok ==> spaces == WithPool(old(spaces), s, old(spaces).items[s].EmplaceAnywhere(area))
      ensures ok ==> a == old(spaces).items[s].Slot()
      ensures ok ==> AbsentFrom(paging.flat, s, area)
      ensures ok && old(AsAreasSay()) ==> AsAreasSay()
      ensures !ok ==> Depleted()
    {
      hide PageTables.Valid, Sound, Frames.Outstanding, Frames.Valid, PoolModel.Valid, PoolModel.EmplaceAnywhere;
      hide Granting;
      if spaces.items[s].Full() {
        return false, 0;
      }
      a := spaces.items[s].Slot();
      var areas := spaces.items[s].EmplaceAnywhere(area);
      AddAreaKeeps(View(spaces), paging.flat, owner, s, a, area);
      WithPoolIsEmplace(spaces, s, areas);
      if AsAreasSay() {
        NewAreaGranting(View(spaces), paging.flat, s, a, area);
      }
      spaces := WithPool(spaces, s, areas);
      return true, a;
    }

    /** One turn of the loop of unmap_area. */
    method UnmapPage(s: nat, a: nat, page: nat)
      requires Valid() && s in spaces.items && a in spaces.items[s].items && spaces.items[s].items[a].Covers(page)
      modifies paging, this`frames, this`owner
      ensures Valid() && paging.flat == old(paging.flat) - {(s, page)}
      ensures owner == OwnersOutside(old(owner), s, page, page + 1)
      ensures paging.SameTables(old(paging.mem), old(paging.tableFrames)) && paging.dirFrames == old(paging.dirFrames)
    {
      hide PageTables.Valid, PoolsValid, Sound, Frames.Outstanding, Frames.Valid, OwningPage, Covered;
      AreaPage(View(spaces), paging.flat, owner, s, a, page);
      var area := spaces.items[s].items[a];
      var pte := paging.FindPte(s, page);
      if pte.Some? {
        if area.Owns() {
          ReleaseKeeps(View(spaces), paging.flat, owner, (s, page));
          OneOwner(View(spaces), paging.flat, owner, s, page);
          frames := frames.Free(pte.value.frame);
          owner := owner - {pte.value.frame};
        } else {
          BorrowKeeps(View(spaces), paging.flat, owner, (s, page), Pte(0xDEAD, {}));
          NoOwner(View(spaces), paging.flat, owner, s, page);
        }
        var ok := paging.MapPage(s, page, 0xDEAD, {});
      } else {
        NoOwner(View(spaces), paging.flat, owner, s, page);
      }
    }

    /** Unmaps every page of an area, gives back the frames it owns, and removes the area. */
    method UnmapArea(s: nat, a: nat)
      requires Valid() && s in spaces.items && a in spaces.items[s].items
      modifies paging, this`spaces, this`frames, this`owner
      ensures Valid() && (old(AsAreasSay()) ==> AsAreasSay())
      ensures spaces == WithPool(old(spaces), s, old(spaces).items[s].Erase(a))
      ensures var area := old(spaces).items[s].items[a];
        && paging.flat == Outside(old(paging.flat), s, area.start, area.end)
        && owner == OwnersOutside(old(owner), s, area.start, area.end)
      ensures paging.SameTables(old(paging.mem), old(paging.tableFrames)) && paging.dirFrames == old(paging.dirFrames)
    {
      hide PageTables.Valid, Sound, Frames.Outstanding, Frames.Valid, RamCovers, PoolModel.Valid, Outside;
      hide OwnersOutside, View, Granting;
      ViewKeys(spaces);
      var area := spaces.items[s].items[a];
      var page := area.start;
      AreaBounds(View(spaces), paging.flat, owner, s, a);
      OutsideSteps(paging.flat, owner, s, area.start, area.start);
      while page < area.end
        invariant Valid() && area.start <= page <= area.end && spaces == old(spaces)
        invariant paging.flat == Outside(old(paging.flat), s, area.start, page)
        invariant owner == OwnersOutside(old(owner), s, area.start, page)
        invariant paging.SameTables(old(paging.mem), old(paging.tableFrames))
        invariant paging.dirFrames == old(paging.dirFrames)
      {
        UnmapPage(s, a, page);
        OutsideSteps(old(paging.flat), old(owner), s, area.start, page);
        page := page + 1;
      }
      OutsideHasNone(old(paging.flat), s, area.start, area.end);
      RemoveAreaKeeps(View(spaces), paging.flat, owner, s, a);
      WithPoolIsEmplace(spaces, s, spaces.items[s].Erase(a));
      spaces := WithPool(spaces, s, spaces.items[s].Erase(a));
      if old(AsAreasSay()) {
        SoundIsOk(old(View(spaces)), old(paging.flat), old(owner));
        UnmappedGranting(old(View(spaces)), old(paging.flat), s, a);
      }
    }

    /** Unmaps the areas of a space that have none of the flags in `keep`; the others keep their pages. */
    method UnmapNotMatching(s: nat, keep: set<AreaFlag>)
      requires Valid() && s in spaces.items
      modifies paging, this`spaces, this`frames, this`owner
      ensures old(AsAreasSay()) ==> AsAreasSay()
      ensures Valid() && s in spaces.items && spaces == WithPool(old(spaces), s, spaces.items[s])
      ensures spaces.items[s].items == Kept(old(spaces).items[s].items, keep)
      ensures paging.flat ==
        WithoutDropped(old(paging.flat), s, old(spaces).items[s].items, keep, old(spaces).items[s].watermark)
      ensures owner ==
        OwnersWithoutDropped(old(owner), s, old(spaces).items[s].items, keep, old(spaces).items[s].watermark)
      ensures paging.SameTables(old(paging.mem), old(paging.tableFrames)) && paging.dirFrames == old(paging.dirFrames)
    {
      hide PageTables.Valid, Sound, Frames.Outstanding, Frames.Valid, RamCovers, PoolModel.Valid, Outside;
      hide OwnersOutside, View, Granting;
      hide WithoutDropped, OwnersWithoutDropped, KeptBelow, Kept;
      ghost var areas := spaces.items[s].items;
      DroppedNone(paging.flat, owner, s, areas, keep);
      var i := 0;
      while i < spaces.items[s].watermark
        invariant old(AsAreasSay()) ==> AsAreasSay()
        invariant Valid() && s in spaces.items && spaces == WithPool(old(spaces), s, spaces.items[s])
        invariant KeptBelow(areas, spaces.items[s].items, keep, i)
        invariant paging.flat == WithoutDropped(old(paging.flat), s, areas, keep, i)
        invariant owner == OwnersWithoutDropped(old(owner), s, areas, keep, i)
        invariant paging.SameTables(old(paging.mem), old(paging.tableFrames))
        invariant paging.dirFrames == old(paging.dirFrames)
        invariant spaces.items[s].watermark <= old(spaces).items[s].watermark
        decreases spaces.items[s].watermark - i
      {
        DroppedStep(old(paging.flat), old(owner), s, areas, keep, i);
        KeptStep(areas, spaces.items[s].items, keep, i);
        if i in spaces.items[s].items && spaces.items[s].items[i].flags * keep == {} {
          UnmapArea(s, i);
        }
        i := i + 1;
      }
      ItemsBelow(old(spaces).items[s]);
      ItemsBelow(spaces.items[s]);
      KeptAll(areas, spaces.items[s].items, keep, i);
      DroppedAll(old(paging.flat), old(owner), s, areas, keep, i, old(spaces).items[s].watermark);
    }

    /** Returns exactly the space's frames, tables and directory, and touches no other space. */
    method DestroySpace(s: nat)
      requires Valid() && s in spaces.items && s != current
      modifies paging, this`spaces, this`frames, this`owner
      ensures old(AsAreasSay()) ==> AsAreasSay()
      ensures Valid() && spaces.items == old(spaces).items - {s}
      ensures paging.flat == OtherSpaces(old(paging.flat), s)
      ensures owner == OtherOwners(old(owner), s)
      ensures paging.tableFrames.Outstanding() ==
        old(paging.tableFrames.Outstanding()) - old(TablesBelow(paging.mem, s, ENTRIES))
      ensures paging.dirFrames.Outstanding() == old(paging.dirFrames.Outstanding()) - {old(paging.mem.pageDir[s])}
    {
      hide Valid, PageTables.Valid, Frames.Outstanding, WithoutDropped, OwnersWithoutDropped, OtherSpaces;
      hide OtherOwners, TablesBelow;
      hide Sound, View, Memory.Sized, Kept, AsAreasSay;
      KeptNone(spaces.items[s].items);
      Facts();
      UnmapNotMatching(s, {});
      Facts();
      SameTablesBelow(old(paging.mem), paging.mem, s);
      ViewKeys(spaces);
      OthersKept(View(spaces), old(paging.flat), old(owner), s, old(spaces).items[s].items, {},
                 old(spaces).items[s].watermark);
      ReleaseSpace(s);
    }

    lemma Facts()
      requires Valid()
      ensures paging.Valid() && paging.mem.Sized() && paging.mem.pageDir.Keys == spaces.items.Keys
      ensures Sound(View(spaces), paging.flat, owner)
    {
    }

    /** A space with one area: a page of it is covered by that area and no other. */
    lemma Lonely(s: nat, a: nat)
      requires s in spaces.items && spaces.items[s].items == map[a := FIRST_AREA]
      ensures Covered(View(spaces)[s], 0x105) && (0x105 * PAGE_SIZE + 12) / PAGE_SIZE == 0x105
      ensures forall b <- spaces.items[s].items :: spaces.items[s].items[b] == FIRST_AREA
      ensures PageFlags(FIRST_AREA.flags) == {P, RW, U}
    {
      ViewKeys(spaces);
      hide View;
      var areas := View(spaces)[s];
      assert a in areas && areas[a].Covers(0x105);
    }

    lemma AreasFine()
      requires Valid()
      ensures AllOk(View(spaces))
    {
      hide PageTables.Valid, PoolsValid, Frames.Outstanding, Frames.Valid, FramesOwned, PagesCovered, RamCovers, View;
    }

    /** The tail of mem_destroy_space, once the areas are gone. */
    method ReleaseSpace(s: nat)
      requires Valid() && s in spaces.items && spaces.items[s].items == map[]
      modifies paging, this`spaces
      ensures old(AsAreasSay()) ==> AsAreasSay()
      ensures Valid() && spaces.items == old(spaces).items - {s}
      ensures paging.flat == OtherSpaces(old(paging.flat), s)
      ensures paging.tableFrames.Outstanding() ==
        old(paging.tableFrames.Outstanding()) - old(TablesBelow(paging.mem, s, ENTRIES))
      ensures paging.dirFrames.Outstanding() == old(paging.dirFrames.Outstanding()) - {old(paging.mem.pageDir[s])}
    {
      hide PageTables.Valid, Sound, Frames.Outstanding, Frames.Valid, RamCovers, PoolModel.Valid, View;
      hide PoolModel.Erase, OtherSpaces, Memory.Sized, TablesBelow, WithoutLow, PoolsValid, Granting;
      ViewKeys(spaces);
      ErasePool(spaces, s);
      RemoveSpaceKeeps(View(spaces), paging.flat, owner, s);
      WithoutAll(paging, s);
      paging.DestroySpace(s);
      spaces := spaces.Erase(s);
      if old(AsAreasSay()) {
        SoundIsOk(old(View(spaces)), old(paging.flat), owner);
        ReleasedGranting(old(View(spaces)), old(paging.flat), s);
      }
    }

    /** The frame of a page of an owning area, drawn from the allocator if the page was absent. */
    method EnsurePage(s: nat, a: nat, page: nat) returns (ok: bool, frame: nat)
      requires Valid() && s in spaces.items && a in spaces.items[s].items
      requires spaces.items[s].items[a].Covers(page) && spaces.items[s].items[a].Owns()
      modifies paging, this`frames, this`owner
      ensures ok ==> GotFrame(old(paging.flat), old(owner), paging.flat, owner, (s, page), frame,
                              spaces.items[s].items[a].flags)
      ensures ok ==> Owning(View(spaces), (s, page)) && page < SCRATCH
      ensures ok ==> frame in owner && frame in ram && |ram[frame]| == PAGE_SIZE
      ensures ok ==> Valid()
      ensures ok && old(AsAreasSay()) ==> AsAreasSay()
      ensures !ok ==> Depleted()
    {
      hide PageTables.Valid, PoolsValid, Sound, Frames.Outstanding, Frames.Valid, OwningPage, Covered, View, RamCovers;
      hide Granting;
      ViewKeys(spaces);
      AreaPage(View(spaces), paging.flat, owner, s, a, page);
      var pte := paging.FindPte(s, page);
      if pte.Some? {
        ok, frame := true, pte.value.frame;
      } else {
        ok, frame := ClaimPage(s, page, PageFlags(spaces.items[s].items[a].flags));
      }
      if ok {
        if old(AsAreasSay()) && pte.None? {
          SoundIsOk(View(spaces), old(paging.flat), old(owner));
          FilledGranting(View(spaces), old(paging.flat), s, a, page, frame);
        }
        OwnedInRam(View(spaces), paging.flat, owner, frames, ram, (s, page));
      }
    }

    /** mem_write_page: stores through a scratch mapping of the page's frame, and through nothing else. */
    method WritePage(s: nat, page: nat, data: Content) returns (ok: bool)
      requires Valid() && s in spaces.items && current in spaces.items && |data| <= PAGE_SIZE
      requires AnonymousAt(View(spaces)[s], page)
      modifies paging, this`frames, this`owner, this`ram
      ensures ok ==> Valid() && page < SCRATCH && Owning(View(spaces), (s, page)) && (s, page) in paging.flat
      ensures ok ==> forall a <- spaces.items[s].items | spaces.items[s].items[a].Covers(page) ::
        paging.flat == Ensured(old(paging.flat), s, page, paging.flat[(s, page)].frame,
          spaces.items[s].items[a].flags) - {(current, SCRATCH)}
      ensures ok ==> var f := paging.flat[(s, page)].frame;
        f in old(ram) && |old(ram)[f]| == PAGE_SIZE && ram == old(ram)[f := data + old(ram)[f][|data|..]]
      ensures ok && old(AsAreasSay()) ==> AsAreasSay()
      ensures !ok ==> Depleted()
    {
      hide PageTables.Valid, PoolsValid, Sound, Frames.Outstanding, Frames.Valid, OwningPage, View, RamCovers, Covered;
      hide AsAreasSay;
      ViewKeys(spaces);
      AnonymousCovers(View(spaces), paging.flat, owner, s, page);
      var found := FindArea(s, page);
      var a := found.value;
      SameCover(View(spaces), paging.flat, owner, s, a, page);
      var frame;
      ok, frame := EnsurePage(s, a, page);
      if !ok {
        return;
      }
      ok := StoreThroughScratch(frame, data);
    }

    /** A store of the kernel to the start of a page of the current space, which must be writable. */
    method StoreThrough(page: nat, data: Content)
      requires Storable(paging.flat, ram, current, page) && |data| <= PAGE_SIZE
      requires Valid() && current in spaces.items && page < PAGES
      modifies this`ram
      ensures ram == StoredTo(paging.flat, old(ram), current, page, data)
      ensures Valid()
    {
      hide PageTables.Valid, PoolsValid, Sound, Frames.Outstanding, Frames.Valid, View, RamCovers;
      ViewKeys(spaces);
      var at := paging.FindPte(current, page).value.frame;
      StoreInRam(ram, frames, at, data + ram[at][|data|..]);
      ram := ram[at := data + ram[at][|data|..]];
    }

    /** Maps `frame` at the scratch base of the current space, copies `data` to it, and unmaps it again. */
    method StoreThroughScratch(frame: nat, data: Content) returns (ok: bool)
      requires Valid() && current in spaces.items && |data| <= PAGE_SIZE && frame in ram && |ram[frame]| == PAGE_SIZE
      modifies paging, this`ram
      ensures ok ==> Valid() && paging.flat == old(paging.flat) - {(current, SCRATCH)}
      ensures ok ==> ram == old(ram)[frame := data + old(ram)[frame][|data|..]]
      ensures ok && old(AsAreasSay()) ==> AsAreasSay()
      ensures !ok ==> Depleted()
    {
      hide PageTables.Valid, PoolsValid, Sound, Frames.Outstanding, Frames.Valid, OwningPage, View, RamCovers, Covered;
      hide Granting;
      ViewKeys(spaces);
      ScratchIsFree(View(spaces), paging.flat, owner, current);
      ok := Borrow(current, SCRATCH, frame, {P, RW, W, D});
      if !ok {
        return;
      }
      StoreThrough(SCRATCH, data);
      ok := Borrow(current, SCRATCH, 0, {});
      if old(AsAreasSay()) {
        SoundIsOk(View(spaces), old(paging.flat), owner);
        RemainsGranting(View(spaces), old(paging.flat), View(spaces), old(paging.flat) - {(current, SCRATCH)});
      }
      MapUnmap(old(paging.flat), current, SCRATCH, Pte(frame, {P, RW, W, D}));
    }

    /** page_fault_alloc, and page_fault_file with the bytes the read delivered: a fresh zeroed page, then the data. */
    method FaultOwned(a: nat, page: nat, data: Content) returns (ok: bool, frame: nat)
      requires Valid() && current in spaces.items && a in spaces.items[current].items && |data| <= PAGE_SIZE
      requires spaces.items[current].items[a].Covers(page) && spaces.items[current].items[a].Owns()
      requires (current, page) !in paging.flat
      modifies paging, this`frames, this`owner, this`ram
      ensures ok ==>
        paging.flat == old(paging.flat)[(current, page) := Pte(frame, PageFlags(spaces.items[current].items[a].flags))]
      ensures ok ==> frame !in old(owner) && owner == old(owner)[frame := (current, page)]
      ensures ok ==> ram == old(ram)[frame := PageOf(data)]
      ensures ok ==> Valid()
      ensures !ok ==> Depleted()
    {
      hide PageTables.Valid, PoolsValid, Sound, Frames.Outstanding, Frames.Valid, OwningPage, Covered, View;
      hide RamCovers, PageOf, PageFlags, Grants;
      ViewKeys(spaces);
      AreaPage(View(spaces), paging.flat, owner, current, a, page);
      var flags := spaces.items[current].items[a].flags;
      ok, frame := ClaimPage(current, page, PageFlags(flags + {READWRITE}));
      if !ok {
        return;
      }
      Writes(flags);
      OwnedInRam(View(spaces), paging.flat, owner, frames, ram, (current, page));
      FillPage(page, data);
      if READWRITE !in flags {
        ghost var mid := paging.flat;
        ok := paging.MapPage(current, page, frame, PageFlags(flags - {READWRITE}));
        ReflagKeeps(View(spaces), mid, owner, (current, page), Pte(frame, PageFlags(flags - {READWRITE})));
      }
      WritableFlags(flags);
    }

    /** Zeroes a page and copies the data to its start, through the page's own mapping. */
    method FillPage(page: nat, data: Content)
      requires Storable(paging.flat, ram, current, page) && |data| <= PAGE_SIZE
      requires Valid() && current in spaces.items && page < PAGES
      modifies this`ram
      ensures ram == old(ram)[paging.flat[(current, page)].frame := PageOf(data)]
      ensures Valid()
    {
      hide Valid, Zeros, PageOf;
      FilledPage(data);
      StoreThrough(page, Zeros(PAGE_SIZE));
      StoreThrough(page, data);
      assert ram == old(ram)[paging.flat[(current, page)].frame := PageOf(data)];
    }

    /** page_fault_linear_map, and one turn of the loop of mem_map_linear_eager. */
    method MapLinearPage(s: nat, a: nat, page: nat) returns (ok: bool)
      requires Valid() && s in spaces.items && a in spaces.items[s].items
      requires spaces.items[s].items[a].Covers(page) && spaces.items[s].items[a].backing.Linear?
      modifies paging
      ensures ok ==> paging.flat == Mapped(old(paging.flat), s, page, LinearPte(spaces.items[s].items[a], page))
      ensures ok ==> Valid()
      ensures !ok ==> Depleted()
    {
      hide PageTables.Valid, PoolsValid, Sound, Frames.Outstanding, Frames.Valid, OwningPage, Covered, View;
      hide RamCovers, Mapped;
      ViewKeys(spaces);
      AreaPage(View(spaces), paging.flat, owner, s, a, page);
      var area := spaces.items[s].items[a];
      ok := Borrow(s, page, area.backing.phys + (page - area.start), PageFlags(area.flags));
    }

    /** Maps or unmaps a scratch page of the current space. */
    method MapScratch(page: nat, frame: nat, flags: Flags) returns (ok: bool)
      requires Valid() && current in spaces.items && SCRATCH <= page < PAGES
      modifies paging
      ensures ok ==> paging.flat == Mapped(old(paging.flat), current, page, Pte(frame, flags))
      ensures ok ==> Valid()
      ensures !ok ==> Depleted() && P in flags
    {
      hide PageTables.Valid, PoolsValid, Sound, Frames.Outstanding, Frames.Valid, OwningPage, Covered, View;
      hide RamCovers, Mapped;
      ViewKeys(spaces);
      ScratchIsFree(View(spaces), paging.flat, owner, current);
      ok := Borrow(current, page, frame, flags);
    }

    /** int_page_fault. A fault that is not a protection violation is on an absent page. */
    method PageFault(address: nat, protection: bool, fileData: Content) returns (r: FaultOutcome)
      requires Valid() && current in spaces.items && |fileData| <= PAGE_SIZE
      requires !protection ==> (current, address / PAGE_SIZE) !in paging.flat
      modifies paging, this`frames, this`owner, this`ram
      ensures r.Killed? <==> protection || !Covered(View(spaces)[current], address / PAGE_SIZE)
      ensures r.Killed? ==> paging.flat == old(paging.flat) && owner == old(owner) && ram == old(ram)
      ensures r.Handled? ==> exists a :: (
        && a in spaces.items[current].items
        && Faulted(spaces.items[current].items[a], current, address / PAGE_SIZE, fileData,
                   old(paging.flat), old(owner), old(ram), paging.flat, owner, ram))
      ensures !r.Stopped? ==> Valid() && (old(AsAreasSay()) ==> AsAreasSay())
      ensures r.Stopped? ==> Depleted()
    {
      hide PageTables.Valid, PoolsValid, Sound, Frames.Outstanding, Frames.Valid, OwningPage, View, RamCovers, PageOf;
      hide Granting;
      ViewKeys(spaces);
      if protection {
        return Killed;
      }
      var page := address / PAGE_SIZE;
      var found := FindArea(current, page);
      if found.None? {
        return Killed;
      }
      var area := spaces.items[current].items[found.value];
      var ok;
      if area.backing.Linear? {
        ok := MapLinearPage(current, found.value, page);
      } else {
        var frame;
        ok, frame := FaultOwned(found.value, page, if area.backing.File? then fileData else []);
      }
      if ok && old(AsAreasSay()) {
        SoundIsOk(View(spaces), old(paging.flat), old(owner));
        FilledGranting(View(spaces), old(paging.flat), current, found.value, page,
                       paging.flat[(current, page)].frame);
      }
      return if ok then Handled else Stopped;
    }

    /** Copies a frame through two temporary mappings in the current space. */
    method CopyPageContents(source: nat, dest: nat) returns (ok: bool)
      requires source in ram && |ram[source]| == PAGE_SIZE && dest in ram && |ram[dest]| == PAGE_SIZE
      requires Valid() && current in spaces.items
      modifies paging, this`ram
      ensures ok ==> paging.flat == old(paging.flat) - {(current, COPY_SOURCE), (current, COPY_DEST)}
      ensures ok ==> ram == old(ram)[dest := old(ram)[source]]
      ensures ok ==> Valid()
      ensures !ok ==> Depleted()
    {
      hide PageTables.Valid, PoolsValid, Sound, Frames.Outstanding, Frames.Valid, OwningPage, View, RamCovers;
      hide Covered, Mapped;
      ViewKeys(spaces);
      ScratchIsFree(View(spaces), paging.flat, owner, current);
      ok := Borrow(current, COPY_SOURCE, source, {P, RW, D});
      if !ok {
        return;
      }
      ok := Borrow(current, COPY_DEST, dest, {P, RW, D});
      if !ok {
        return;
      }
      TwoMappings(old(paging.flat), current, source, dest);
      var from := paging.FindPte(current, COPY_SOURCE).value.frame;
      StoreThrough(COPY_DEST, ram[from]);
      assert old(ram)[source] + old(ram)[dest][PAGE_SIZE..] == old(ram)[source];
      ok := Borrow(current, COPY_SOURCE, 0, {});
      ok := Borrow(current, COPY_DEST, 0, {});
    }

    /** One turn of the page loops of copy_area. */
    method CopyPage(s: nat, a: nat, child: nat, b: nat, page: nat) returns (ok: bool)
      requires Valid() && current in spaces.items && s in spaces.items && child in spaces.items && s != child
      requires a in spaces.items[s].items && b in spaces.items[child].items
      requires spaces.items[child].items[b] == spaces.items[s].items[a]
      requires spaces.items[s].items[a].Covers(page) && !spaces.items[s].items[a].backing.File?
      requires (child, page) !in paging.flat
      modifies paging, this`ram, this`frames, this`owner
      ensures ok ==> CopiedPage(paging.flat, ram, spaces.items[s].items[a], s, child, page)
      ensures ok ==> Untouched(old(paging.flat), paging.flat, current, child, page, page + 1)
      ensures ok ==> RamKept(old(owner), old(ram), ram) && old(owner).Keys <= owner.Keys
      ensures ok ==> Valid()
      ensures !ok ==> Depleted()
    {
      hide PageTables.Valid, PoolsValid, Sound, Frames.Outstanding, Frames.Valid, OwningPage, View, RamCovers, Covered;
      hide CopiedPage, Untouched, RamKept, Mapped, PageFlags;
      ViewKeys(spaces);
      AreaPage(View(spaces), paging.flat, owner, s, a, page);
      AreaPage(View(spaces), paging.flat, owner, child, b, page);
      OwnedRam(View(spaces), paging.flat, owner, frames, ram);
      var area := spaces.items[s].items[a];
      var pte := paging.FindPte(s, page);
      NothingCopied(paging.flat, owner, ram, area, s, child, current, page);
      if pte.None? {
        ok := true;
      } else if area.backing.Linear? {
        LinearCopied(paging.flat, ram, area, s, child, current, page);
        ok := Borrow(child, page, pte.value.frame, pte.value.flags);
      } else {
        var frame;
        ok, frame := ClaimPage(child, page, PageFlags(area.flags));
        if ok {
          OwnedInRam(View(spaces), paging.flat, owner, frames, ram, (child, page));
          ok := CopyPageContents(pte.value.frame, frame);
          AnonymousCopied(old(paging.flat), old(owner), old(ram), area, s, child, current, page, frame);
        }
      }
    }

    /** copy_area: the area goes into the child, and its present pages with it unless it is a file. */
    method CopyArea(s: nat, a: nat, child: nat) returns (ok: bool)
      requires Valid() && current in spaces.items && s in spaces.items && child in spaces.items && s != child
      requires a in spaces.items[s].items
      requires forall b <- spaces.items[child].items :: !spaces.items[s].items[a].Overlaps(spaces.items[child].items[b])
      modifies paging, this`spaces, this`ram, this`frames, this`owner
      ensures ok ==> var area := old(spaces).items[s].items[a];
        && !old(spaces).items[child].Full()
        && spaces == WithPool(old(spaces), child, old(spaces).items[child].EmplaceAnywhere(area))
        && Copied(paging.flat, ram, area, s, child, area.end)
        && Untouched(old(paging.flat), paging.flat, current, child, area.start, area.end)
      ensures ok ==> RamKept(old(owner), old(ram), ram) && old(owner).Keys <= owner.Keys
      ensures ok ==> Valid()
      ensures !ok ==> Depleted()
    {
      hide Valid, Copied, Untouched, RamKept, PoolModel.Valid, PoolModel.EmplaceAnywhere;
      Bounds(s, a);
      var area := spaces.items[s].items[a];
      var b;
      ok, b := MapArea(child, area);
      if !ok {
        return;
      }
      if area.backing.File? {
        RamHeld();
        CopiedNone(paging.flat, owner, ram, area, s, child, current, area.end);
        return;
      }
      ok := CopyPages(s, a, child, b);
    }

    method CopyPages(s: nat, a: nat, child: nat, b: nat) returns (ok: bool)
      requires Valid() && current in spaces.items && s in spaces.items && child in spaces.items && s != child
      requires a in spaces.items[s].items && b in spaces.items[child].items
      requires spaces.items[child].items[b] == spaces.items[s].items[a] && !spaces.items[s].items[a].backing.File?
      requires AbsentFrom(paging.flat, child, spaces.items[s].items[a])
      modifies paging, this`ram, this`frames, this`owner
      ensures ok ==> var area := spaces.items[s].items[a];
        && Copied(paging.flat, ram, area, s, child, area.end)
        && Untouched(old(paging.flat), paging.flat, current, child, area.start, area.end)
      ensures ok ==> RamKept(old(owner), old(ram), ram) && old(owner).Keys <= owner.Keys
      ensures ok ==> Valid()
      ensures !ok ==> Depleted()
    {
      hide Valid, Copied, CopiedPage, Untouched, RamKept, Owners;
      Bounds(s, a);
      RamHeld();
      var area := spaces.items[s].items[a];
      CopiedNone(paging.flat, owner, ram, area, s, child, current, area.start);
      var page := area.start;
      while page < area.end
        invariant area.start <= page <= area.end <= SCRATCH && Valid()
        invariant Copied(paging.flat, ram, area, s, child, page)
        invariant Untouched(old(paging.flat), paging.flat, current, child, area.start, page)
        invariant RamKept(old(owner), old(ram), ram) && old(owner).Keys <= owner.Keys
      {
        AreaOwners(s, a);
        AreaOwners(child, b);
        StillAbsent(old(paging.flat), paging.flat, current, child, area.start, page);
        ghost var flat0, ram0, owner0 := paging.flat, ram, owner;
        ok := CopyPage(s, a, child, b, page);
        if !ok {
          return;
        }
        CopiedStep(flat0, owner0, ram0, paging.flat, ram, area, s, child, current, page);
        UntouchedTrans(old(paging.flat), flat0, paging.flat, current, child, area.start, page, page, page + 1);
        RamKeptTrans(old(owner), old(ram), owner0, ram0, ram);
        page := page + 1;
      }
      ok := true;
    }

    /** mem_fork_space: a new space with a copy of every area that is not NO_FORK. */
    method ForkSpace(s: nat) returns (ok: bool, child: nat)
      requires Valid() && current in spaces.items && s in spaces.items
      modifies paging, this`spaces, this`ram, this`frames, this`owner
      ensures ok ==> child !in old(spaces).items && spaces.items.Keys == old(spaces).items.Keys + {child}
      ensures ok ==> forall t <- old(spaces).items :: spaces.items[t] == old(spaces).items[t]
      ensures ok ==>
        AreaValues(spaces.items[child].items) == Forkable(old(spaces).items[s].items, old(spaces).items[s].watermark)
      ensures ok ==> CopiedAreas(paging.flat, ram, spaces.items[child].items, s, child)
      ensures ok ==> Untouched(old(paging.flat), paging.flat, current, child, 0, PAGES)
      ensures ok ==> RamKept(old(owner), old(ram), ram) && old(owner).Keys <= owner.Keys
      ensures ok ==> Valid()
      ensures ok && old(AsAreasSay()) ==> AsAreasSay()
      ensures !ok ==> Depleted()
    {
      hide Valid, CopiedAreas, Untouched, RamKept, PoolModel.Valid, PoolModel.Emplace, AreaValues, Forkable;
      hide Granting, View, AllOk;
      AreasFine();
      RamHeld();
      ok, child := CreateSpace();
      if !ok {
        return;
      }
      ForkStart(paging.flat, owner, ram, spaces.items[s].items, s, child, current);
      ok := ForkAreas(s, child);
      if ok && old(AsAreasSay()) {
        ForkGrants(old(spaces), old(paging.flat), s, child);
      }
    }

    method ForkAreas(s: nat, child: nat) returns (ok: bool)
      requires Valid() && current in spaces.items && s in spaces.items && child in spaces.items && s != child
      requires spaces.items[child].items == map[]
      modifies paging, this`spaces, this`ram, this`frames, this`owner
      ensures ok ==> OnlyChanged(old(spaces), spaces, child)
      ensures ok ==>
        AreaValues(spaces.items[child].items) == Forkable(old(spaces).items[s].items, old(spaces).items[s].watermark)
      ensures ok ==> CopiedAreas(paging.flat, ram, spaces.items[child].items, s, child)
      ensures ok ==> Untouched(old(paging.flat), paging.flat, current, child, 0, PAGES)
      ensures ok ==> RamKept(old(owner), old(ram), ram) && old(owner).Keys <= owner.Keys
      ensures ok ==> Valid()
      ensures !ok ==> Depleted()
    {
      hide Valid, Copied, CopiedAreas, Untouched, RamKept, AreaValues, Forkable, PoolModel.Slot;
      RamHeld();
      var areas := spaces.items[s];
      ForkStart(paging.flat, owner, ram, areas.items, s, child, current);
      var i := 0;
      while i < areas.watermark
        invariant 0 <= i <= areas.watermark && Valid()
        invariant OnlyChanged(old(spaces), spaces, child)
        invariant AreaValues(spaces.items[child].items) == Forkable(areas.items, i)
        invariant CopiedAreas(paging.flat, ram, spaces.items[child].items, s, child)
        invariant Untouched(old(paging.flat), paging.flat, current, child, 0, PAGES)
        invariant RamKept(old(owner), old(ram), ram) && old(owner).Keys <= owner.Keys
      {
        ForkValues(areas.items, spaces.items[child].items, i, spaces.items[child].Slot());
        if i in areas.items && NO_FORK !in areas.items[i].flags {
          ghost var flat0, ram0, owner0 := paging.flat, ram, owner;
          ok := ForkArea(s, i, child);
          if !ok {
            return;
          }
          UntouchedTrans(old(paging.flat), flat0, paging.flat, current, child, 0, PAGES, 0, PAGES);
          RamKeptTrans(old(owner), old(ram), owner0, ram0, ram);
        }
        i := i + 1;
      }
      ok := true;
    }

    /** One turn of the loop of mem_fork_space, for an area that is copied. */
    method ForkArea(s: nat, i: nat, child: nat) returns (ok: bool)
      requires Valid() && current in spaces.items && s in spaces.items && child in spaces.items && s != child
      requires i in spaces.items[s].items
      requires AreaValues(spaces.items[child].items) == Forkable(spaces.items[s].items, i)
      requires CopiedAreas(paging.flat, ram, spaces.items[child].items, s, child)
      modifies paging, this`spaces, this`ram, this`frames, this`owner
      ensures ok ==>
        !old(spaces).items[child].Full() && old(spaces).items[child].Slot() !in old(spaces).items[child].items
      ensures ok ==> child in spaces.items
      ensures ok ==> var was := old(spaces).items[child];
        spaces.items[child].items == was.items[was.Slot() := old(spaces).items[s].items[i]]
      ensures ok ==> OnlyChanged(old(spaces), spaces, child)
      ensures ok ==> CopiedAreas(paging.flat, ram, spaces.items[child].items, s, child)
      ensures ok ==> Untouched(old(paging.flat), paging.flat, current, child, 0, PAGES)
      ensures ok ==> RamKept(old(owner), old(ram), ram) && old(owner).Keys <= owner.Keys
      ensures ok ==> Valid()
      ensures !ok ==> Depleted()
    {
      hide Copied, CopiedAreas, Untouched, RamKept, PoolModel.Valid, PoolModel.Emplace, AreaValues, Forkable;
      hide PageTables.Valid, Sound, Frames.Outstanding, Frames.Valid, RamCovers, View;
      ViewKeys(spaces);
      SoundAreas(View(spaces), paging.flat, owner, s);
      ForkDisjoint(spaces.items[s].items, spaces.items[child].items, i);
      spaces.items[child].SlotIsFresh();
      Bounds(s, i);
      ghost var area, b := spaces.items[s].items[i], spaces.items[child].Slot();
      ok := CopyArea(s, i, child);
      if ok {
        ForkStep(old(View(spaces)), old(paging.flat), old(owner), old(ram), paging.flat, ram, s, child, current, i, b);
        UntouchedWiden(old(paging.flat), paging.flat, current, child, area.start, area.end);
      }
    }

    /** mem_map_linear_eager: a linear area whose pages are all mapped at once. */
    method MapLinearEager(s: nat, area: Area) returns (ok: bool, a: nat)
      requires Valid() && s in spaces.items && area.Allowed() && area.backing.Linear?
      requires forall b <- spaces.items[s].items :: !area.Overlaps(spaces.items[s].items[b])
      modifies paging, this`spaces
      ensures ok ==> a !in old(spaces).items[s].items && !old(spaces).items[s].Full()
      ensures ok ==> spaces == WithPool(old(spaces), s, old(spaces).items[s].EmplaceAnywhere(area))
      ensures ok ==> EagerlyMapped(old(paging.flat), paging.flat, s, area, area.end)
      ensures ok ==> Valid()
      ensures ok && old(AsAreasSay()) ==> AsAreasSay()
      ensures !ok ==> Depleted()
    {
      hide AsAreasSay, Valid, EagerlyMapped, PoolModel.EmplaceAnywhere, PoolModel.Valid, Mapped;
      ok, a := MapArea(s, area);
      if ok {
        ok := MapLinearPages(s, a);
      }
    }

    method MapLinearPages(s: nat, a: nat) returns (ok: bool)
      requires Valid() && s in spaces.items && a in spaces.items[s].items && spaces.items[s].items[a].backing.Linear?
      modifies paging
      ensures ok ==>
        EagerlyMapped(old(paging.flat), paging.flat, s, spaces.items[s].items[a], spaces.items[s].items[a].end)
      ensures ok ==> Valid()
      ensures ok && old(AsAreasSay()) ==> AsAreasSay()
      ensures !ok ==> Depleted()
    {
      hide Granting, Valid, EagerlyMapped, Mapped;
      Bounds(s, a);
      var area := spaces.items[s].items[a];
      EagerStart(paging.flat, s, area);
      var page := area.start;
      while page < area.end
        invariant area.start <= page <= area.end && Valid()
        invariant EagerlyMapped(old(paging.flat), paging.flat, s, area, page)
      {
        EagerStep(old(paging.flat), paging.flat, s, area, page);
        ok := MapLinearPage(s, a, page);
        if !ok {
          return;
        }
        page := page + 1;
      }
      ok := true;
      if old(AsAreasSay()) {
        EagerGrants(old(paging.flat), s, a);
      }
    }

    /** mem_map_portal: `pages` pages of the current space from `virt` on become windows onto pages of `dest`. */
    method MapPortal(virt: nat, pages: nat, dest: nat, destVirt: nat, flags: set<AreaFlag>)
      returns (ok: bool, ghost a: nat)
      requires Valid() && current in spaces.items && dest in spaces.items && SCRATCH <= virt && virt + pages <= PAGES
      requires pages > 0 && exists c :: PortalArea(spaces.items[dest].items, c, destVirt, pages)
      modifies paging, this`frames, this`owner
      ensures PortalArea(spaces.items[dest].items, a, destVirt, pages)
      ensures ok ==> Portal(old(paging.flat), paging.flat, current, virt, dest, destVirt, pages,
        spaces.items[dest].items[a].flags, flags)
      ensures ok ==> Valid()
      ensures ok && old(AsAreasSay()) ==> AsAreasSay()
      ensures !ok ==> Depleted()
    {
      hide AsAreasSay, Valid, Portal, Covered;
      PortalEnds(dest, destVirt, pages);
      var start := FindArea(dest, destVirt);
      var end := FindArea(dest, destVirt + pages - 1);
      assert start.Some? && end.Some? && start.value == end.value;
      a := start.value;
      ok := MapPortalPages(virt, pages, dest, destVirt, flags, start.value);
    }

    /** Both ends of the range lie in one anonymous area, and in no other area. */
    lemma PortalEnds(dest: nat, destVirt: nat, pages: nat)
      requires Valid() && dest in spaces.items && pages > 0
      requires exists c :: PortalArea(spaces.items[dest].items, c, destVirt, pages)
      ensures Covered(View(spaces)[dest], destVirt) && Covered(View(spaces)[dest], destVirt + pages - 1)
      ensures forall b, c | PortalArea(spaces.items[dest].items, c, destVirt, pages) && b in spaces.items[dest].items
                :: (var area := spaces.items[dest].items[b];
                    area.Covers(destVirt) || area.Covers(destVirt + pages - 1) ==> b == c)
    {
      hide PageTables.Valid, PoolsValid, Frames.Outstanding, Frames.Valid, FramesOwned, PagesCovered, RamCovers, View;
      ViewKeys(spaces);
    }

    method MapPortalPages(virt: nat, pages: nat, dest: nat, destVirt: nat, flags: set<AreaFlag>, a: nat)
      returns (ok: bool)
      requires Valid() && current in spaces.items && dest in spaces.items && SCRATCH <= virt && virt + pages <= PAGES
      requires PortalArea(spaces.items[dest].items, a, destVirt, pages)
      modifies paging, this`frames, this`owner
      ensures ok ==> Portal(old(paging.flat), paging.flat, current, virt, dest, destVirt, pages,
        spaces.items[dest].items[a].flags, flags)
      ensures ok ==> Valid()
      ensures ok && old(AsAreasSay()) ==> AsAreasSay()
      ensures !ok ==> Depleted()
    {
      hide Granting, Valid, Portal, Mapped, Ensured;
      Bounds(dest, a);
      ghost var areaFlags := spaces.items[dest].items[a].flags;
      PortalStart(paging.flat, current, virt, dest, destVirt, areaFlags, flags);
      var offset := 0;
      while offset < pages
        invariant 0 <= offset <= pages && Valid()
        invariant Portal(old(paging.flat), paging.flat, current, virt, dest, destVirt, offset, areaFlags, flags)
      {
        ghost var flat0 := paging.flat;
        var frame;
        ok, frame := EnsurePage(dest, a, destVirt + offset);
        if !ok {
          return;
        }
        PortalStep(old(paging.flat), flat0, current, virt, dest, destVirt, offset, areaFlags, flags, frame);
        ok := MapScratch(virt + offset, frame, PageFlags(flags));
        if !ok {
          return;
        }
        offset := offset + 1;
      }
      ok := true;
      if old(AsAreasSay()) {
        PortalGrants(old(paging.flat), virt, pages, dest, destVirt, flags, a);
      }
    }

    method UnmapPortal(virt: nat, pages: nat)
      requires Valid() && current in spaces.items && SCRATCH <= virt && virt + pages <= PAGES
      modifies paging
      ensures paging.flat == Outside(old(paging.flat), current, virt, virt + pages)
      ensures Valid() && (old(AsAreasSay()) ==> AsAreasSay())
    {
      hide Granting, Valid, Outside;
      OutsideSteps(paging.flat, owner, current, virt, virt);
      var offset := 0;
      while offset < pages
        invariant 0 <= offset <= pages && Valid()
        invariant paging.flat == Outside(old(paging.flat), current, virt, virt + offset)
      {
        OutsideSteps(old(paging.flat), owner, current, virt, virt + offset);
        var ok := MapScratch(virt + offset, 0xDEAD0, {});
        offset := offset + 1;
      }
      if old(AsAreasSay()) {
        WindowGone(old(paging.flat), virt, pages);
      }
    }

    lemma ForkGrants(was: SpacePool, flat: Flat, s: nat, child: nat)
      requires Granting(View(was), flat) && AllOk(View(was)) && s in was.items && child !in was.items
      requires spaces.items.Keys == was.items.Keys + {child}
      requires forall t <- was.items :: spaces.items[t] == was.items[t]
      requires AreaValues(spaces.items[child].items) == Forkable(was.items[s].items, was.items[s].watermark)
      requires CopiedAreas(paging.flat, ram, spaces.items[child].items, s, child)
      requires Untouched(flat, paging.flat, current, child, 0, PAGES)
      ensures AsAreasSay()
    {
      hide Granting, AllOk, CopiedAreas, Untouched, View;
      ViewKeys(was);
      ViewKeys(spaces);
      forall b | b in spaces.items[child].items
        ensures exists a :: a in was.items[s].items && was.items[s].items[a] == spaces.items[child].items[b]
      {
        assert spaces.items[child].items[b] in AreaValues(spaces.items[child].items);
      }
      ForkedGranting(View(was), flat, ram, View(spaces), paging.flat, s, child, current);
    }

    lemma EagerGrants(flat: Flat, s: nat, a: nat)
      requires Valid() && s in spaces.items && a in spaces.items[s].items && Granting(View(spaces), flat)
      requires spaces.items[s].items[a].backing.Linear?
      requires EagerlyMapped(flat, paging.flat, s, spaces.items[s].items[a], spaces.items[s].items[a].end)
      ensures AsAreasSay()
    {
      hide PageTables.Valid, PoolsValid, Frames.Outstanding, Frames.Valid, FramesOwned, PagesCovered, RamCovers, View;
      hide EagerlyMapped, Granting;
      ViewKeys(spaces);
      SoundIsOk(View(spaces), paging.flat, owner);
      EagerGranting(View(spaces), flat, paging.flat, s, a);
    }

    lemma PortalGrants(flat: Flat, virt: nat, pages: nat, dest: nat, destVirt: nat, flags: set<AreaFlag>, a: nat)
      requires Valid() && dest in spaces.items && virt >= SCRATCH && Granting(View(spaces), flat)
      requires PortalArea(spaces.items[dest].items, a, destVirt, pages)
      requires Portal(flat, paging.flat, current, virt, dest, destVirt, pages, spaces.items[dest].items[a].flags, flags)
      ensures AsAreasSay()
    {
      hide PageTables.Valid, PoolsValid, Frames.Outstanding, Frames.Valid, FramesOwned, PagesCovered, RamCovers, View;
      hide Portal, Granting;
      ViewKeys(spaces);
      SoundIsOk(View(spaces), paging.flat, owner);
      PortalGranting(View(spaces), flat, paging.flat, current, virt, dest, destVirt, pages, a, flags);
    }

    lemma WindowGone(flat: Flat, virt: nat, pages: nat)
      requires Valid() && Granting(View(spaces), flat) && virt >= SCRATCH
      requires paging.flat == Outside(flat, current, virt, virt + pages)
      ensures AsAreasSay()
    {
      hide PageTables.Valid, PoolsValid, Frames.Outstanding, Frames.Valid, FramesOwned, PagesCovered, RamCovers, View;
      SoundIsOk(View(spaces), paging.flat, owner);
      RemainsGranting(View(spaces), flat, View(spaces), paging.flat);
    }

    /** Every frame with an owner is in memory. */
    lemma RamHeld()
      requires Valid()
      ensures forall f <- owner :: f in ram
    {
      OwnedRam(View(spaces), paging.flat, owner, frames, ram);
    }

    lemma AreaOwners(s: nat, a: nat)
      requires Valid() && s in spaces.items && a in spaces.items[s].items
      ensures spaces.items[s].items[a].Owns() ==>
        Owners(paging.flat, owner, s, spaces.items[s].items[a].start, spaces.items[s].items[a].end)
    {
      hide PageTables.Valid, Frames.Outstanding, PoolModel.Valid, View, FramesOwned;
      ViewKeys(spaces);
      AreaOwnersHold(View(spaces), paging.flat, owner, s, a);
    }

    lemma Bounds(s: nat, a: nat)
      requires Valid() && s in spaces.items && a in spaces.items[s].items
      ensures spaces.items[s].items[a].Allowed()
    {
      hide PageTables.Valid, Frames.Outstanding, PoolModel.Valid, View, Sound;
      ViewKeys(spaces);
      AreaBounds(View(spaces), paging.flat, owner, s, a);
    }
  }

  /** Every present page of an area allows what the area's flags say, no more and no less. */
  ghost predicate Granting(spaces: Spaces, flat: Flat) {
    forall s, a, page: nat | s in spaces && a in spaces[s] && spaces[s][a].Covers(page) && (s, page) in flat ::
      Grants(flat[(s, page)].flags, spaces[s][a].flags)
  }

  ghost predicate AllOk(spaces: Spaces) {
    forall s <- spaces :: AreasOk(spaces[s])
  }

  lemma OnlyCover(spaces: Spaces, s: nat, a: nat, page: nat)
    requires AllOk(spaces) && s in spaces && a in spaces[s] && spaces[s][a].Covers(page)
    ensures forall b <- spaces[s] :: spaces[s][b].Covers(page) ==> b == a
  {
  }

  lemma SoundIsOk(spaces: Spaces, flat: Flat, owner: map<nat, Key>)
    requires Sound(spaces, flat, owner)
    ensures AllOk(spaces)
  {
  }

  /** What is left of areas and pages is as it was, but for scratch pages. */
  ghost predicate Remains(spaces: Spaces, flat: Flat, spaces': Spaces, flat': Flat) {
    && (forall s, a | s in spaces' && a in spaces'[s] ::
          s in spaces && a in spaces[s] && spaces'[s][a] == spaces[s][a])
    && (forall k <- flat' :: k.1 >= SCRATCH || (k in flat && flat'[k] == flat[k]))
  }

  lemma RemainsGranting(spaces: Spaces, flat: Flat, spaces': Spaces, flat': Flat)
    requires Granting(spaces, flat) && AllOk(spaces) && Remains(spaces, flat, spaces', flat')
    ensures Granting(spaces', flat')
  {
    hide Grants, Disjoint;
    forall s, a, page: nat | s in spaces' && a in spaces'[s] && spaces'[s][a].Covers(page) && (s, page) in flat'
      ensures Grants(flat'[(s, page)].flags, spaces'[s][a].flags)
    {
      assert spaces[s][a].Allowed();
    }
  }

  lemma NothingInSpace(spaces: Spaces, flat: Flat, s: nat)
    requires Granting(spaces, flat) && AllOk(spaces) && s !in spaces
    ensures Granting(WithAreas(spaces, s, map[]), flat)
  {
    hide AllOk;
    RemainsGranting(spaces, flat, WithAreas(spaces, s, map[]), flat);
  }

  lemma UnmappedGranting(spaces: Spaces, flat: Flat, s: nat, a: nat)
    requires Granting(spaces, flat) && AllOk(spaces) && s in spaces && a in spaces[s]
    ensures Granting(WithAreas(spaces, s, spaces[s] - {a}), Outside(flat, s, spaces[s][a].start, spaces[s][a].end))
  {
    hide AllOk;
    RemainsGranting(spaces, flat, WithAreas(spaces, s, spaces[s] - {a}),
                    Outside(flat, s, spaces[s][a].start, spaces[s][a].end));
  }

  lemma ReleasedGranting(spaces: Spaces, flat: Flat, s: nat)
    requires Granting(spaces, flat) && AllOk(spaces)
    ensures Granting(spaces - {s}, OtherSpaces(flat, s))
  {
    hide AllOk;
    RemainsGranting(spaces, flat, spaces - {s}, OtherSpaces(flat, s));
  }

  lemma NewAreaGranting(spaces: Spaces, flat: Flat, s: nat, a: nat, area: Area)
    requires Granting(spaces, flat) && s in spaces && AbsentFrom(flat, s, area)
    ensures Granting(WithAreas(spaces, s, spaces[s][a := area]), flat)
  {
    hide Grants;
  }

  /** One page of an area gets an entry with the area's flags. */
  lemma FilledGranting(spaces: Spaces, flat: Flat, s: nat, a: nat, page: nat, frame: nat)
    requires Granting(spaces, flat) && AllOk(spaces)
    requires s in spaces && a in spaces[s] && spaces[s][a].Covers(page)
    ensures Granting(spaces, flat[(s, page) := Pte(frame, PageFlags(spaces[s][a].flags))])
  {
    OnlyCover(spaces, s, a, page);
    hide Grants, AllOk;
  }

  /** Pages copied by a fork, to the flags of their areas. */
  lemma ForkedGranting(spaces: Spaces, flat: Flat, ram: map<nat, Content>,
                       spaces': Spaces, flat': Flat, s: nat, child: nat, cur: nat)
    requires Granting(spaces, flat) && AllOk(spaces) && s in spaces && child !in spaces
    requires spaces'.Keys == spaces.Keys + {child} && forall t <- spaces :: spaces'[t] == spaces[t]
    requires forall b <- spaces'[child] :: exists a :: a in spaces[s] && spaces[s][a] == spaces'[child][b]
    requires CopiedAreas(flat', ram, spaces'[child], s, child) && Untouched(flat, flat', cur, child, 0, PAGES)
    ensures Granting(spaces', flat')
  {
    hide Grants, Disjoint, Untouched, CopiedAreas;
    forall t, b, page: nat | t in spaces' && b in spaces'[t] && spaces'[t][b].Covers(page) && (t, page) in flat'
      ensures Grants(flat'[(t, page)].flags, spaces'[t][b].flags)
    {
      if t != child {
        assert spaces[t][b].Allowed();
        StillThere(flat, flat', cur, child, t, page);
      } else {
        var a :| a in spaces[s] && spaces[s][a] == spaces'[child][b];
        assert spaces[s][a].Allowed();
        StillThere(flat, flat', cur, child, s, page);
        CopiedFlags(flat', ram, spaces'[child], s, child, b, page);
      }
    }
  }

  lemma StillThere(flat: Flat, flat': Flat, cur: nat, child: nat, s: nat, page: nat)
    requires Untouched(flat, flat', cur, child, 0, PAGES) && s != child && page < SCRATCH
    ensures Lookup(flat', s, page) == Lookup(flat, s, page)
  {
  }

  lemma CopiedFlags(flat: Flat, ram: map<nat, Content>, areas: Areas, s: nat, child: nat, b: nat, page: nat)
    requires CopiedAreas(flat, ram, areas, s, child) && b in areas && areas[b].Covers(page) && (child, page) in flat
    ensures flat[(child, page)].flags == PageFlags(areas[b].flags)
      || Lookup(flat, s, page) == Some(flat[(child, page)])
  {
    assert Copied(flat, ram, areas[b], s, child, areas[b].end);
    assert CopiedPage(flat, ram, areas[b], s, child, page);
  }

  /** A portal's window allows what its flags say; pages it makes present allow what their area says. */
  lemma PortalGranting(spaces: Spaces, flat: Flat, flat': Flat, cur: nat, virt: nat, dest: nat,
                       destVirt: nat, n: nat, a: nat, flags: set<AreaFlag>)
    requires Granting(spaces, flat) && AllOk(spaces) && virt >= SCRATCH && dest in spaces
    requires PortalArea(spaces[dest], a, destVirt, n)
    requires Portal(flat, flat', cur, virt, dest, destVirt, n, spaces[dest][a].flags, flags)
    ensures Granting(spaces, flat')
    ensures forall page: nat :: virt <= page < virt + n ==>
      (cur, page) in flat' && Grants(flat'[(cur, page)].flags, flags)
  {
    hide Grants, PageFlags;
    forall page: nat | virt <= page < virt + n
      ensures (cur, page) in flat' && Grants(flat'[(cur, page)].flags, flags)
    {
      var q: nat := page - virt + destVirt;
      assert Lookup(flat', cur, virt + (q - destVirt)) == Some(Pte(flat'[(dest, q)].frame, PageFlags(flags)));
    }
    forall s, b, page: nat | s in spaces && b in spaces[s] && spaces[s][b].Covers(page) && (s, page) in flat'
      ensures Grants(flat'[(s, page)].flags, spaces[s][b].flags)
    {
      assert spaces[s][b].Allowed();
      if InRange(s, page, dest, destVirt, n) {
        OnlyCover(spaces, dest, a, page);
      } else {
        assert Lookup(flat', s, page) == Lookup(flat, s, page);
      }
    }
  }

  lemma EagerGranting(spaces: Spaces, flat: Flat, flat': Flat, s: nat, a: nat)
    requires Granting(spaces, flat) && AllOk(spaces) && s in spaces && a in spaces[s]
    requires spaces[s][a].backing.Linear? && EagerlyMapped(flat, flat', s, spaces[s][a], spaces[s][a].end)
    ensures Granting(spaces, flat')
  {
    hide Grants, PageFlags;
    forall t, b, page: nat | t in spaces && b in spaces[t] && spaces[t][b].Covers(page) && (t, page) in flat'
      ensures Grants(flat'[(t, page)].flags, spaces[t][b].flags)
    {
      if t == s && spaces[s][a].Covers(page) {
        OnlyCover(spaces, s, a, page);
        assert Lookup(flat', t, page) == Some(LinearPte(spaces[s][a], page));
      } else {
        assert Lookup(flat', t, page) == Lookup(flat, t, page);
      }
    }
  }

  /** Pages below `high` of the area are copied. */
  ghost predicate Copied(flat: Flat, ram: map<nat, Content>, area: Area, s: nat, child: nat, high: nat) {
    forall page: nat :: area.start <= page < high ==> CopiedPage(flat, ram, area, s, child, page)
  }

  /** The page is there and writable, and so is the memory behind it. */
  ghost predicate Storable(flat: Flat, ram: map<nat, Content>, s: nat, page: nat) {
    && (s, page) in flat && RW in flat[(s, page)].flags
    && flat[(s, page)].frame in ram && |ram[flat[(s, page)].frame]| == PAGE_SIZE
  }

  /** Memory after a store to the start of the page. */
  ghost function StoredTo(flat: Flat, ram: map<nat, Content>, s: nat, page: nat, data: Content): map<nat, Content>
    requires Storable(flat, ram, s, page) && |data| <= PAGE_SIZE
  {
    var f := flat[(s, page)].frame;
    ram[f := data + ram[f][|data|..]]
  }

  /** No page of the area is present in the space. */
  ghost predicate AbsentFrom(flat: Flat, s: nat, area: Area) {
    forall p: nat :: area.Covers(p) ==> (s, p) !in flat
  }

  ghost predicate Owners(flat: Flat, owner: map<nat, Key>, s: nat, low: nat, high: nat) {
    forall page: nat :: low <= page < high && (s, page) in flat ==> flat[(s, page)].frame in owner
  }

  lemma AreaOwnersHold(spaces: Spaces, flat: Flat, owner: map<nat, Key>, s: nat, a: nat)
    requires Sound(spaces, flat, owner) && s in spaces && a in spaces[s]
    ensures spaces[s][a].Owns() ==> Owners(flat, owner, s, spaces[s][a].start, spaces[s][a].end)
  {
    if spaces[s][a].Owns() {
      forall page: nat | spaces[s][a].Covers(page) && (s, page) in flat
        ensures flat[(s, page)].frame in owner
      {
        AreaPage(spaces, flat, owner, s, a, page);
      }
    }
  }

  lemma CopiedNone(flat: Flat, owner: map<nat, Key>, ram: map<nat, Content>, area: Area, s: nat, child: nat, cur: nat,
                   high: nat)
    requires high == area.start || (area.backing.File? && AbsentFrom(flat, child, area))
    requires high <= area.end && forall f <- owner :: f in ram
    ensures Copied(flat, ram, area, s, child, high)
    ensures Untouched(flat, flat, cur, child, area.start, high) && RamKept(owner, ram, ram)
  {
  }

  lemma StillAbsent(flat: Flat, flat': Flat, cur: nat, child: nat, low: nat, page: nat)
    requires Untouched(flat, flat', cur, child, low, page) && page < SCRATCH && (child, page) !in flat
    ensures (child, page) !in flat'
  {
    assert Lookup(flat', child, page) == Lookup(flat, child, page);
  }

  lemma UntouchedTrans(flat0: Flat, flat1: Flat, flat2: Flat, cur: nat, child: nat, low: nat, mid: nat, low2: nat,
                       high: nat)
    requires Untouched(flat0, flat1, cur, child, low, mid) && Untouched(flat1, flat2, cur, child, low2, high)
    requires low <= low2 && mid <= high
    ensures Untouched(flat0, flat2, cur, child, low, high)
  {
    hide Lookup;
  }

  lemma UntouchedWiden(flat: Flat, flat': Flat, cur: nat, child: nat, low: nat, high: nat)
    requires Untouched(flat, flat', cur, child, low, high) && high <= PAGES
    ensures Untouched(flat, flat', cur, child, 0, PAGES)
  {
    hide Lookup;
  }

  lemma SoundAreas(spaces: Spaces, flat: Flat, owner: map<nat, Key>, s: nat)
    requires Sound(spaces, flat, owner) && s in spaces
    ensures AreasOk(spaces[s])
  {
  }

  lemma RamKeptTrans(owner0: map<nat, Key>, ram0: map<nat, Content>, owner1: map<nat, Key>, ram1: map<nat, Content>,
                     ram2: map<nat, Content>)
    requires RamKept(owner0, ram0, ram1) && RamKept(owner1, ram1, ram2) && owner0.Keys <= owner1.Keys
    ensures RamKept(owner0, ram0, ram2)
  {
    assert forall f <- owner0 :: f in owner1;
  }

  /** A page that is copied stays copied while its frames keep their contents. */
  lemma CopiedStep(flat: Flat, owner: map<nat, Key>, ram: map<nat, Content>, flat': Flat, ram': map<nat, Content>,
                   area: Area, s: nat, child: nat, cur: nat, page: nat)
    requires area.start <= page < area.end <= SCRATCH && s != child
    requires Copied(flat, ram, area, s, child, page) && CopiedPage(flat', ram', area, s, child, page)
    requires Untouched(flat, flat', cur, child, page, page + 1) && RamKept(owner, ram, ram')
    requires area.Owns() ==>
      Owners(flat, owner, s, area.start, area.end) && Owners(flat, owner, child, area.start, area.end)
    ensures Copied(flat', ram', area, s, child, page + 1)
  {
    forall q: nat | area.start <= q < page
      ensures CopiedPage(flat', ram', area, s, child, q)
    {
      CopiedStill(flat, owner, ram, flat', ram', area, s, child, cur, page, page + 1, q);
    }
  }

  lemma CopiedStill(flat: Flat, owner: map<nat, Key>, ram: map<nat, Content>, flat': Flat, ram': map<nat, Content>,
                    area: Area, s: nat, child: nat, cur: nat, low: nat, high: nat, q: nat)
    requires area.start <= q < area.end <= SCRATCH && !(low <= q < high) && s != child
    requires CopiedPage(flat, ram, area, s, child, q)
    requires Untouched(flat, flat', cur, child, low, high) && RamKept(owner, ram, ram')
    requires area.Owns() ==>
      Owners(flat, owner, s, area.start, area.end) && Owners(flat, owner, child, area.start, area.end)
    ensures CopiedPage(flat', ram', area, s, child, q)
  {
    assert Lookup(flat', s, q) == Lookup(flat, s, q);
    assert Lookup(flat', child, q) == Lookup(flat, child, q);
  }

  /** Copying another area leaves the copy of `area` as it was. */
  lemma AreaStillCopied(flat: Flat, owner: map<nat, Key>, ram: map<nat, Content>, flat': Flat, ram': map<nat, Content>,
                        area: Area, s: nat, child: nat, cur: nat, other: Area)
    requires area.Allowed() && s != child && !other.Overlaps(area)
    requires Copied(flat, ram, area, s, child, area.end)
    requires Untouched(flat, flat', cur, child, other.start, other.end) && RamKept(owner, ram, ram')
    requires area.Owns() ==>
      Owners(flat, owner, s, area.start, area.end) && Owners(flat, owner, child, area.start, area.end)
    ensures Copied(flat', ram', area, s, child, area.end)
  {
    hide CopiedPage, Untouched, RamKept, Owners;
    forall q: nat | area.start <= q < area.end
      ensures CopiedPage(flat', ram', area, s, child, q)
    {
      CopiedStill(flat, owner, ram, flat', ram', area, s, child, cur, other.start, other.end, q);
    }
  }

  /** Areas copied so far come from earlier slots of the parent, so they do not overlap the next one. */
  lemma ForkDisjoint(parent: Areas, areas: Areas, i: nat)
    requires AreasOk(parent) && i in parent && AreaValues(areas) == Forkable(parent, i)
    ensures forall b <- areas :: !parent[i].Overlaps(areas[b])
    ensures forall b <- areas :: exists a :: a in parent && parent[a] == areas[b]
  {
    forall b | b in areas
      ensures exists a :: a in parent && a < i && parent[a] == areas[b]
    {
      assert areas[b] in AreaValues(areas);
    }
  }

  lemma ForkStep(spaces: Spaces, flat: Flat, owner: map<nat, Key>, ram: map<nat, Content>,
                 flat': Flat, ram': map<nat, Content>,
                 s: nat, child: nat, cur: nat, i: nat, b: nat)
    requires Sound(spaces, flat, owner) && s in spaces && child in spaces && s != child
    requires i in spaces[s] && b !in spaces[child] && AreaValues(spaces[child]) == Forkable(spaces[s], i)
    requires CopiedAreas(flat, ram, spaces[child], s, child)
    requires Copied(flat', ram', spaces[s][i], s, child, spaces[s][i].end)
    requires Untouched(flat, flat', cur, child, spaces[s][i].start, spaces[s][i].end) && RamKept(owner, ram, ram')
    ensures CopiedAreas(flat', ram', spaces[child][b := spaces[s][i]], s, child)
  {
    ForkDisjoint(spaces[s], spaces[child], i);
    hide Copied, Untouched, RamKept, FramesOwned, PagesCovered, Owners, AreaValues, Forkable;
    forall c | c in spaces[child]
      ensures Copied(flat', ram', spaces[child][c], s, child, spaces[child][c].end)
    {
      var a :| a in spaces[s] && spaces[s][a] == spaces[child][c];
      AreaOwnersHold(spaces, flat, owner, s, a);
      AreaOwnersHold(spaces, flat, owner, child, c);
      AreaStillCopied(flat, owner, ram, flat', ram', spaces[child][c], s, child, cur, spaces[s][i]);
    }
  }

  /** What a fork has copied grows by the area in slot `i`, if that one is to be copied. */
  lemma ForkValues(parent: Areas, areas: Areas, i: nat, b: nat)
    requires AreaValues(areas) == Forkable(parent, i)
    ensures i in parent && NO_FORK !in parent[i].flags && b !in areas ==>
      AreaValues(areas[b := parent[i]]) == Forkable(parent, i + 1)
    ensures !(i in parent && NO_FORK !in parent[i].flags) ==> AreaValues(areas) == Forkable(parent, i + 1)
  {
    if i in parent && NO_FORK !in parent[i].flags {
      var more := areas[b := parent[i]];
      assert forall c <- areas :: b !in areas ==> c in more && more[c] == areas[c];
      assert b in more && more[b] == parent[i];
      if b !in areas {
        assert AreaValues(more) == AreaValues(areas) + {parent[i]};
      }
      assert Forkable(parent, i + 1) == Forkable(parent, i) + {parent[i]};
    } else {
      assert Forkable(parent, i + 1) == Forkable(parent, i);
    }
  }

  lemma ForkStart(flat: Flat, owner: map<nat, Key>, ram: map<nat, Content>, parent: Areas, s: nat, child: nat, cur: nat)
    requires forall f <- owner :: f in ram
    ensures AreaValues(map[]) == Forkable(parent, 0)
    ensures CopiedAreas(flat, ram, map[], s, child) && Untouched(flat, flat, cur, child, 0, PAGES)
    ensures RamKept(owner, ram, ram)
  {
  }

  ghost function AreaValues(areas: Areas): set<Area> {
    set a | a in areas :: areas[a]
  }

  /** The areas among the first `i` slots that a fork copies. */
  ghost function Forkable(areas: Areas, i: nat): set<Area> {
    set a | a in areas && a < i && NO_FORK !in areas[a].flags :: areas[a]
  }

  ghost predicate CopiedAreas(flat: Flat, ram: map<nat, Content>, areas: Areas, s: nat, child: nat) {
    forall b <- areas :: Copied(flat, ram, areas[b], s, child, areas[b].end)
  }

  ghost predicate OnlyChanged(was: SpacePool, spaces: SpacePool, child: nat) {
    && spaces.items.Keys == was.items.Keys
    && forall t <- was.items :: t != child ==> spaces.items[t] == was.items[t]
  }

  /** Pages of a linear area below `high` map its physical range; nothing else has changed. */
  ghost predicate EagerlyMapped(flat: Flat, flat': Flat, s: nat, area: Area, high: nat)
    requires area.backing.Linear?
  {
    forall t: nat, page: nat :: Lookup(flat', t, page) ==
      if t == s && area.start <= page < high then Some(LinearPte(area, page)) else Lookup(flat, t, page)
  }

  lemma EagerStart(flat: Flat, s: nat, area: Area)
    requires area.backing.Linear?
    ensures EagerlyMapped(flat, flat, s, area, area.start)
  {
  }

  lemma EagerStep(flat: Flat, flat': Flat, s: nat, area: Area, page: nat)
    requires area.backing.Linear? && area.start <= page && EagerlyMapped(flat, flat', s, area, page)
    ensures EagerlyMapped(flat, Mapped(flat', s, page, LinearPte(area, page)), s, area, page + 1)
  {
    hide LinearPte;
    forall t: nat, q: nat
      ensures Lookup(Mapped(flat', s, page, LinearPte(area, page)), t, q) ==
        if (t, q) == (s, page) then Some(LinearPte(area, page)) else Lookup(flat', t, q)
    {
    }
  }

  ghost predicate PortalArea(areas: Areas, a: nat, destVirt: nat, pages: nat) {
    a in areas && areas[a].backing.Anonymous? && areas[a].start <= destVirt && destVirt + pages <= areas[a].end
  }

  ghost predicate InRange(s: nat, page: nat, t: nat, low: nat, n: nat) {
    s == t && low <= page < low + n
  }

  /** The first `n` pages from `virt` on in `cur` show the frames of the pages from `destVirt` on in `dest`. */
  ghost predicate Portal(flat: Flat, flat': Flat, cur: nat, virt: nat, dest: nat, destVirt: nat, n: nat,
                         areaFlags: set<AreaFlag>, flags: set<AreaFlag>)
  {
    && (forall q: nat :: destVirt <= q < destVirt + n ==>
          && (dest, q) in flat'
          && (if (dest, q) in flat then flat'[(dest, q)] == flat[(dest, q)]
              else flat'[(dest, q)].flags == PageFlags(areaFlags))
          && Lookup(flat', cur, virt + (q - destVirt)) == Some(Pte(flat'[(dest, q)].frame, PageFlags(flags))))
    && (forall s: nat, page: nat :: !InRange(s, page, cur, virt, n) && !InRange(s, page, dest, destVirt, n) ==>
          Lookup(flat', s, page) == Lookup(flat, s, page))
  }

  lemma PortalStart(flat: Flat, cur: nat, virt: nat, dest: nat, destVirt: nat, areaFlags: set<AreaFlag>,
                    flags: set<AreaFlag>)
    ensures Portal(flat, flat, cur, virt, dest, destVirt, 0, areaFlags, flags)
  {
  }

  lemma PortalStep(flat: Flat, flat': Flat, cur: nat, virt: nat, dest: nat, destVirt: nat, n: nat,
                   areaFlags: set<AreaFlag>, flags: set<AreaFlag>, frame: nat)
    requires Portal(flat, flat', cur, virt, dest, destVirt, n, areaFlags, flags) && destVirt + n < SCRATCH <= virt
    requires (dest, destVirt + n) in flat' ==> frame == flat'[(dest, destVirt + n)].frame
    ensures Portal(flat,
      Mapped(Ensured(flat', dest, destVirt + n, frame, areaFlags), cur, virt + n, Pte(frame, PageFlags(flags))),
                   cur, virt, dest, destVirt, n + 1, areaFlags, flags)
  {
    hide PageFlags;
    assert Lookup(flat', dest, destVirt + n) == Lookup(flat, dest, destVirt + n);
  }

  /**
   After a fork, parent and child hold equal contents in different frames, so stores in one never show in
   the other.
   */
  lemma ForkIsolates(spaces: Spaces, flat: Flat, owner: map<nat, Key>, ram: map<nat, Content>,
                     s: nat, child: nat, a: nat, b: nat, page: nat, c: Content)
    requires Sound(spaces, flat, owner) && s in spaces && child in spaces && s != child
    requires a in spaces[s] && b in spaces[child] && spaces[child][b] == spaces[s][a]
    requires spaces[s][a].backing.Anonymous? && spaces[s][a].Covers(page) && (s, page) in flat
    requires CopiedAreas(flat, ram, spaces[child], s, child)
    ensures (child, page) in flat && flat[(child, page)].frame != flat[(s, page)].frame
    ensures flat[(s, page)].frame in ram && flat[(child, page)].frame in ram
    ensures ram[flat[(child, page)].frame] == ram[flat[(s, page)].frame]
    ensures ram[flat[(s, page)].frame := c][flat[(child, page)].frame] == ram[flat[(child, page)].frame]
    ensures ram[flat[(child, page)].frame := c][flat[(s, page)].frame] == ram[flat[(s, page)].frame]
  {
    hide FramesOwned, PagesCovered, OwningPage;
    assert CopiedPage(flat, ram, spaces[s][a], s, child, page);
    AreaPage(spaces, flat, owner, s, a, page);
    AreaPage(spaces, flat, owner, child, b, page);
    UniqueOwnership(spaces, flat, owner);
  }

  lemma TwoMappings(flat: Flat, s: nat, source: nat, dest: nat)
    ensures var mid :=
        Mapped(Mapped(flat, s, COPY_SOURCE, Pte(source, {P, RW, D})), s, COPY_DEST, Pte(dest, {P, RW, D}));
      && Lookup(mid, s, COPY_SOURCE) == Some(Pte(source, {P, RW, D}))
      && Lookup(mid, s, COPY_DEST) == Some(Pte(dest, {P, RW, D}))
      && Mapped(Mapped(mid, s, COPY_SOURCE, Pte(0, {})), s, COPY_DEST, Pte(0, {})) ==
           flat - {(s, COPY_SOURCE), (s, COPY_DEST)}
  {
  }

  /** How a page of a forked area relates to the parent's page. */
  ghost predicate CopiedPage(flat: Flat, ram: map<nat, Content>, area: Area, s: nat, child: nat, page: nat) {
    match area.backing
    case Linear(_) => Lookup(flat, child, page) == Lookup(flat, s, page)
    case File(_, _, _) => (child, page) !in flat
    case Anonymous =>
      && ((child, page) in flat <==> (s, page) in flat)
      && ((s, page) in flat ==>
            && flat[(child, page)].flags == PageFlags(area.flags)
            && flat[(s, page)].frame in ram && flat[(child, page)].frame in ram
            && ram[flat[(child, page)].frame] == ram[flat[(s, page)].frame])
  }

  /** Mappings are the same except for pages `low` to `high` of `child` and scratch pages of `cur`. */
  ghost predicate Untouched(flat: Flat, flat': Flat, cur: nat, child: nat, low: nat, high: nat) {
    forall s: nat, page: nat :: !(s == cur && page >= SCRATCH) && !(s == child && low <= page < high) ==>
      Lookup(flat', s, page) == Lookup(flat, s, page)
  }

  /** The frames with an owner keep their contents. */
  ghost predicate RamKept(owner: map<nat, Key>, ram: map<nat, Content>, ram': map<nat, Content>) {
    forall f <- owner :: f in ram && f in ram' && ram'[f] == ram[f]
  }

  lemma OwnedRam(spaces: Spaces, flat: Flat, owner: map<nat, Key>, frames: Frames, ram: map<nat, Content>)
    requires Sound(spaces, flat, owner) && owner.Keys == frames.Outstanding() && frames.Valid()
    requires RamCovers(ram, frames)
    ensures forall k <- flat :: Owning(spaces, k) ==> flat[k].frame in owner
    ensures forall f <- owner :: f in ram && |ram[f]| == PAGE_SIZE
  {
  }

  lemma NothingCopied(flat: Flat, owner: map<nat, Key>, ram: map<nat, Content>, area: Area, s: nat, child: nat,
                      cur: nat, page: nat)
    requires (child, page) !in flat && forall f <- owner :: f in ram
    ensures (s, page) !in flat ==> CopiedPage(flat, ram, area, s, child, page)
    ensures Untouched(flat, flat, cur, child, page, page + 1) && RamKept(owner, ram, ram)
  {
  }

  lemma LinearCopied(flat: Flat, ram: map<nat, Content>, area: Area, s: nat, child: nat, cur: nat, page: nat)
    requires area.backing.Linear? && s != child && (s, page) in flat && P in flat[(s, page)].flags
    ensures var flat' := Mapped(flat, child, page, flat[(s, page)]);
      CopiedPage(flat', ram, area, s, child, page) && Untouched(flat, flat', cur, child, page, page + 1)
  {
  }

  lemma AnonymousCopied(flat: Flat, owner: map<nat, Key>, ram: map<nat, Content>, area: Area,
                        s: nat, child: nat, cur: nat, page: nat, frame: nat)
    requires area.backing.Anonymous? && s != child && page < SCRATCH && (s, page) in flat
    requires flat[(s, page)].frame in owner && frame !in owner && forall f <- owner :: f in ram
    ensures var flat' :=
        flat[(child, page) := Pte(frame, PageFlags(area.flags))] - {(cur, COPY_SOURCE), (cur, COPY_DEST)};
      var ram' := ram[frame := ram[flat[(s, page)].frame]];
      && CopiedPage(flat', ram', area, s, child, page)
      && Untouched(flat, flat', cur, child, page, page + 1)
      && RamKept(owner, ram, ram')
  {
  }

  function LinearPte(area: Area, page: nat): (pte: Pte)
    requires area.backing.Linear? && area.start <= page
    ensures P in pte.flags
  {
    Pte(area.backing.phys + (page - area.start), PageFlags(area.flags))
  }

  datatype FaultOutcome = Killed | Handled | Stopped

  function Zeros(n: nat): (c: Content)
    ensures |c| == n && forall i :: 0 <= i < n ==> c[i] == 0
  {
    seq(n, _ => 0)
  }

  /** A page that starts with `data` and is zero after it. */
  ghost function PageOf(data: Content): Content
    requires |data| <= PAGE_SIZE
  {
    data + Zeros(PAGE_SIZE - |data|)
  }

  lemma FilledPage(data: Content)
    requires |data| <= PAGE_SIZE
    ensures data + Zeros(PAGE_SIZE)[|data|..] == PageOf(data) && |PageOf(data)| == PAGE_SIZE
    ensures forall c: Content :: |c| == PAGE_SIZE ==> Zeros(PAGE_SIZE) + c[PAGE_SIZE..] == Zeros(PAGE_SIZE)
  {
  }

  /** What a handled fault on `page` of `area` leaves behind. */
  ghost predicate Faulted(area: Area, s: nat, page: nat, fileData: Content,
                          flat: Flat, owner: map<nat, Key>, ram: map<nat, Content>,
                          flat': Flat, owner': map<nat, Key>, ram': map<nat, Content>)
  {
    && area.Covers(page)
    && (s, page) in flat'
    && var f := flat'[(s, page)].frame;
    && flat' == flat[(s, page) := Pte(f, PageFlags(area.flags))]
    && match area.backing
       case Linear(phys) => f == phys + (page - area.start) && owner' == owner && ram' == ram
       case Anonymous => f !in owner && owner' == owner[f := (s, page)] && ram' == ram[f := PageOf([])]
       case File(_, _, _) =>
         && f !in owner && owner' == owner[f := (s, page)]
         && |fileData| <= PAGE_SIZE && ram' == ram[f := PageOf(fileData)]
  }

  lemma Writes(flags: set<AreaFlag>)
    ensures RW in PageFlags(flags + {READWRITE})
  {
  }

  lemma WritableFlags(flags: set<AreaFlag>)
    ensures READWRITE in flags ==> PageFlags(flags + {READWRITE}) == PageFlags(flags)
    ensures READWRITE !in flags ==> PageFlags(flags - {READWRITE}) == PageFlags(flags)
  {
    assert READWRITE in flags ==> flags + {READWRITE} == flags;
    assert READWRITE !in flags ==> flags - {READWRITE} == flags;
  }

  /** The page is present, with the frame given, the rest as before. */
  ghost function Ensured(flat: Flat, s: nat, page: nat, frame: nat, flags: set<AreaFlag>): Flat {
    if (s, page) in flat then flat else flat[(s, page) := Pte(frame, PageFlags(flags))]
  }

  /** The frame of the page: its own, or a fresh one if it was absent. */
  ghost predicate GotFrame(flat: Flat, owner: map<nat, Key>, flat': Flat, owner': map<nat, Key>, k: Key, frame: nat,
                           flags: set<AreaFlag>)
  {
    && flat' == Ensured(flat, k.0, k.1, frame, flags)
    && (if k in flat then frame == flat[k].frame && owner' == owner
        else frame !in owner && owner' == owner[frame := k])
  }

  ghost predicate AnonymousAt(areas: Areas, page: nat) {
    exists a :: a in areas && areas[a].Covers(page) && areas[a].backing.Anonymous?
  }

  lemma AnonymousCovers(spaces: Spaces, flat: Flat, owner: map<nat, Key>, s: nat, page: nat)
    requires Sound(spaces, flat, owner) && s in spaces && AnonymousAt(spaces[s], page)
    ensures Covered(spaces[s], page)
    ensures forall a <- spaces[s] :: spaces[s][a].Covers(page) ==> spaces[s][a].backing.Anonymous?
  {
  }

  lemma ScratchIsFree(spaces: Spaces, flat: Flat, owner: map<nat, Key>, s: nat)
    requires Sound(spaces, flat, owner) && s in spaces
    ensures forall page: nat :: page >= SCRATCH ==> !OwningPage(spaces[s], page)
  {
    forall page: nat | page >= SCRATCH
      ensures !OwningPage(spaces[s], page)
    {
      ScratchOwnsNothing(spaces[s], page);
    }
  }

  lemma OwnedInRam(spaces: Spaces, flat: Flat, owner: map<nat, Key>, frames: Frames, ram: map<nat, Content>, k: Key)
    requires Sound(spaces, flat, owner) && owner.Keys == frames.Outstanding() && frames.Valid()
    requires RamCovers(ram, frames)
    requires k in flat && Owning(spaces, k)
    ensures flat[k].frame in owner && flat[k].frame in ram && |ram[flat[k].frame]| == PAGE_SIZE
  {
  }

  lemma StoreInRam(ram: map<nat, Content>, frames: Frames, f: nat, c: Content)
    requires RamCovers(ram, frames) && |c| == PAGE_SIZE
    ensures RamCovers(ram[f := c], frames)
  {
  }

  lemma MapUnmap(flat: Flat, s: nat, page: nat, pte: Pte)
    ensures Mapped(Mapped(flat, s, page, pte), s, page, Pte(0, {})) == flat - {(s, page)}
  {
  }

  /** Areas that cover the same page are the same area. */
  lemma SameCover(spaces: Spaces, flat: Flat, owner: map<nat, Key>, s: nat, a: nat, page: nat)
    requires Sound(spaces, flat, owner) && s in spaces && a in spaces[s] && spaces[s][a].Covers(page)
    ensures forall b <- spaces[s] :: spaces[s][b].Covers(page) ==> b == a
  {
  }

  lemma ItemsBelow<T>(p: PoolModel<T>)
    requires p.Valid()
    ensures forall a <- p.items :: a < p.watermark
  {
  }

  lemma KeptStep(areas: Areas, left: Areas, keep: set<AreaFlag>, i: nat)
    requires KeptBelow(areas, left, keep, i)
    ensures i in left && left[i].flags * keep == {} ==> KeptBelow(areas, left - {i}, keep, i + 1)
    ensures !(i in left && left[i].flags * keep == {}) ==> KeptBelow(areas, left, keep, i + 1)
    ensures (i in left && left[i].flags * keep == {}) <==> (i in areas && areas[i].flags * keep == {})
    ensures i in left ==> i in areas && left[i] == areas[i]
  {
  }

  lemma KeptNone(areas: Areas)
    ensures Kept(areas, {}) == map[]
  {
  }

  lemma KeptAll(areas: Areas, left: Areas, keep: set<AreaFlag>, i: nat)
    requires KeptBelow(areas, left, keep, i) && forall a <- left :: a < i
    ensures left == Kept(areas, keep) && forall a <- areas :: a < i
  {
    assert forall a <- areas :: a >= i ==> a in left;
  }

  lemma DroppedAll(flat: Flat, owner: map<nat, Key>, s: nat, areas: Areas, keep: set<AreaFlag>, i: nat, j: nat)
    requires forall a <- areas :: a < i && a < j
    ensures WithoutDropped(flat, s, areas, keep, i) == WithoutDropped(flat, s, areas, keep, j)
    ensures OwnersWithoutDropped(owner, s, areas, keep, i) == OwnersWithoutDropped(owner, s, areas, keep, j)
  {
    forall page: nat
      ensures Dropped(areas, keep, i, page) <==> Dropped(areas, keep, j, page)
    {
    }
    hide Dropped;
  }

  ghost function Kept(areas: Areas, keep: set<AreaFlag>): Areas {
    map a | a in areas && areas[a].flags * keep != {} :: areas[a]
  }

  /** The areas left once those below `i` have been looked at. */
  ghost predicate KeptBelow(areas: Areas, left: Areas, keep: set<AreaFlag>, i: nat) {
    left == map a | a in areas && (a >= i || areas[a].flags * keep != {}) :: areas[a]
  }

  ghost predicate Dropped(areas: Areas, keep: set<AreaFlag>, i: nat, page: nat) {
    exists a :: a in areas && a < i && areas[a].flags * keep == {} && areas[a].Covers(page)
  }

  ghost function WithoutDropped(flat: Flat, s: nat, areas: Areas, keep: set<AreaFlag>, i: nat): Flat {
    map k | k in flat && !(k.0 == s && Dropped(areas, keep, i, k.1)) :: flat[k]
  }

  ghost function OwnersWithoutDropped(owner: map<nat, Key>, s: nat, areas: Areas, keep: set<AreaFlag>,
                                      i: nat): map<nat, Key> {
    map f | f in owner && !(owner[f].0 == s && Dropped(areas, keep, i, owner[f].1)) :: owner[f]
  }

  lemma DroppedNone(flat: Flat, owner: map<nat, Key>, s: nat, areas: Areas, keep: set<AreaFlag>)
    ensures WithoutDropped(flat, s, areas, keep, 0) == flat
    ensures OwnersWithoutDropped(owner, s, areas, keep, 0) == owner
    ensures KeptBelow(areas, areas, keep, 0)
  {
  }

  lemma DroppedStep(flat: Flat, owner: map<nat, Key>, s: nat, areas: Areas, keep: set<AreaFlag>, i: nat)
    ensures i in areas && areas[i].flags * keep == {} ==>
      && WithoutDropped(flat, s, areas, keep, i + 1) ==
           Outside(WithoutDropped(flat, s, areas, keep, i), s, areas[i].start, areas[i].end)
      && OwnersWithoutDropped(owner, s, areas, keep, i + 1) ==
           OwnersOutside(OwnersWithoutDropped(owner, s, areas, keep, i), s, areas[i].start, areas[i].end)
    ensures !(i in areas && areas[i].flags * keep == {}) ==>
      && WithoutDropped(flat, s, areas, keep, i + 1) == WithoutDropped(flat, s, areas, keep, i)
      && OwnersWithoutDropped(owner, s, areas, keep, i + 1) == OwnersWithoutDropped(owner, s, areas, keep, i)
  {
    forall page: nat
      ensures Dropped(areas, keep, i + 1, page) <==>
        Dropped(areas, keep, i, page) || (i in areas && areas[i].flags * keep == {} && areas[i].Covers(page))
    {
    }
    hide Dropped;
  }

  ghost function OtherOwners(owner: map<nat, Key>, s: nat): map<nat, Key> {
    map f | f in owner && owner[f].0 != s :: owner[f]
  }

  /** With all areas of a space gone, what is left of owners is those of other spaces. */
  lemma OthersKept(spaces: Spaces, flat: Flat, owner: map<nat, Key>, s: nat, areas: Areas, keep: set<AreaFlag>, i: nat)
    requires s in spaces && spaces[s] == map[]
    requires Sound(spaces, WithoutDropped(flat, s, areas, keep, i), OwnersWithoutDropped(owner, s, areas, keep, i))
    ensures OtherSpaces(WithoutDropped(flat, s, areas, keep, i), s) == OtherSpaces(flat, s)
    ensures OwnersWithoutDropped(owner, s, areas, keep, i) == OtherOwners(owner, s)
  {
    hide Dropped;
    var owner' := OwnersWithoutDropped(owner, s, areas, keep, i);
    assert forall f <- owner' :: Owning(spaces, owner'[f]);
  }

  lemma SameTablesBelow(m: Memory, m': Memory, s: nat)
    requires m.Sized() && m'.Sized() && s in m.pageDir && m'.pageDir == m.pageDir && m'.dirs == m.dirs
    ensures TablesBelow(m', s, ENTRIES) == TablesBelow(m, s, ENTRIES)
  {
    assert forall i: nat :: i < ENTRIES ==> m'.Entry(s, i) == m.Entry(s, i);
  }

  lemma WithoutAll(paging: PageTables, s: nat)
    requires paging.Valid()
    ensures WithoutLow(paging.flat, s, ENTRIES) == OtherSpaces(paging.flat, s)
  {
    hide Owned, Frames.Outstanding, Frames.Valid;
  }

  lemma ErasePool(spaces: SpacePool, s: nat)
    requires PoolsValid(spaces) && s in spaces.items
    ensures spaces.Valid() && PoolsValid(spaces.Erase(s)) && View(spaces.Erase(s)) == View(spaces) - {s}
  {
    hide PoolModel.Valid, PoolModel.Erase;
  }

  /** The flat map without pages `low` up to `high` of space `s`. */
  ghost function Outside(flat: Flat, s: nat, low: nat, high: nat): Flat {
    map k | k in flat && !(k.0 == s && low <= k.1 < high) :: flat[k]
  }

  lemma OutsideSteps(flat: Flat, owner: map<nat, Key>, s: nat, low: nat, page: nat)
    requires low <= page
    ensures Outside(flat, s, low, page + 1) == Outside(flat, s, low, page) - {(s, page)}
    ensures OwnersOutside(owner, s, low, page + 1) ==
      OwnersOutside(OwnersOutside(owner, s, low, page), s, page, page + 1)
    ensures low == page ==> Outside(flat, s, low, page) == flat && OwnersOutside(owner, s, low, page) == owner
  {
  }

  lemma OutsideHasNone(flat: Flat, s: nat, low: nat, high: nat)
    ensures forall p: nat :: low <= p < high ==> (s, p) !in Outside(flat, s, low, high)
  {
  }

  /** The owners that are not pages `low` up to `high` of space `s`. */
  ghost function OwnersOutside(owner: map<nat, Key>, s: nat, low: nat, high: nat): map<nat, Key> {
    map f | f in owner && !(owner[f].0 == s && low <= owner[f].1 < high) :: owner[f]
  }

  lemma AreaPage(spaces: Spaces, flat: Flat, owner: map<nat, Key>, s: nat, a: nat, page: nat)
    requires Sound(spaces, flat, owner) && s in spaces && a in spaces[s] && spaces[s][a].Covers(page)
    ensures page < SCRATCH && Covered(spaces[s], page)
    ensures Owning(spaces, (s, page)) <==> spaces[s][a].Owns()
  {
    OneCover(spaces[s], page, a);
  }

  lemma AreaBounds(spaces: Spaces, flat: Flat, owner: map<nat, Key>, s: nat, a: nat)
    requires Sound(spaces, flat, owner) && s in spaces && a in spaces[s]
    ensures spaces[s][a].Allowed()
  {
  }

  lemma OneOwner(spaces: Spaces, flat: Flat, owner: map<nat, Key>, s: nat, page: nat)
    requires Sound(spaces, flat, owner) && (s, page) in flat && Owning(spaces, (s, page))
    ensures owner - {flat[(s, page)].frame} == OwnersOutside(owner, s, page, page + 1)
  {
  }

  lemma NoOwner(spaces: Spaces, flat: Flat, owner: map<nat, Key>, s: nat, page: nat)
    requires Sound(spaces, flat, owner) && ((s, page) !in flat || !Owning(spaces, (s, page)))
    ensures OwnersOutside(owner, s, page, page + 1) == owner
  {
  }

  lemma ViewKeys(spaces: SpacePool)
    ensures View(spaces).Keys == spaces.items.Keys
    ensures forall s <- spaces.items :: View(spaces)[s] == spaces.items[s].items
  {
  }

  lemma AddPool(spaces: SpacePool, areas: PoolModel<Area>)
    requires PoolsValid(spaces) && !spaces.Full() && areas.Valid()
    ensures var r := spaces.EmplaceAnywhere(areas);
      PoolsValid(r) && View(r) == WithAreas(View(spaces), spaces.Slot(), areas.items)
  {
    hide PoolModel.Valid, PoolModel.Emplace, PoolModel.EmplaceAnywhere, PoolModel.Full, PoolModel.Slot;
  }

  ghost predicate RamCovers(ram: map<nat, Content>, frames: Frames) {
    forall f :: frames.base <= f < frames.limit ==> f in ram && |ram[f]| == PAGE_SIZE
  }

  /** A run: a space with one writable area of a user, and a fault on a page of it. */
  method FirstPage(dirFrames: Frames, tableFrames: Frames, frames: Frames, ram: map<nat, Content>)
    returns (m: AddressSpaces, r: FaultOutcome)
    requires dirFrames.Valid() && dirFrames.Outstanding() == {}
    requires tableFrames.Valid() && tableFrames.Outstanding() == {}
    requires frames.Valid() && frames.Outstanding() == {} && RamCovers(ram, frames)
    ensures r.Stopped? ==> m.Depleted()
    ensures !r.Stopped? ==> r.Handled? && m.Valid() && m.AsAreasSay() && (m.current, 0x105) in m.paging.flat
    ensures !r.Stopped? ==> m.paging.flat[(m.current, 0x105)].flags == {P, RW, U}
  {
    hide AddressSpaces.Valid, Granting, View, PoolModel.Valid, PoolModel.EmplaceAnywhere, Frames.Valid;
    m := new AddressSpaces(dirFrames, tableFrames, frames, 8, ram);
    var ok, s := m.CreateSpace();
    if !ok {
      return m, Stopped;
    }
    m.Activate(s);
    var a;
    ok, a := m.MapArea(s, FIRST_AREA);
    if !ok {
      return m, Stopped;
    }
    m.Lonely(s, a);
    r := m.PageFault(0x105 * PAGE_SIZE + 12, false, []);
  }

  const FIRST_AREA: Area := Area(0x100, 0x110, Anonymous, {READWRITE, USER})
}
