/**
 Who owns which physical frame, over all address spaces of kernel/memory.cc.

 A present page of an anonymous (AREA_ALLOC) or file (AREA_FILE) area owns the
 frame it maps. `FramesOwned` says that this is a bijection between those pages
 and the frames the allocator has handed out. The lemmas say that each kind of
 change the kernel makes to an address space keeps it so.
 */
module Ownership {
  import opened Pools
  import opened Paging

  datatype AreaFlag = READWRITE | EXECUTABLE | USER | CACHE_DISABLED | GLOBAL | SYSCALL | RETAIN_EXEC | NO_FORK
  datatype Backing = Linear(phys: nat) | Anonymous | File(fd: nat, offset: nat, size: nat)

  datatype Area = Area(start: nat, end: nat, backing: Backing, flags: set<AreaFlag>) {
    predicate Covers(page: nat) {
      start <= page < end
    }

    predicate Overlaps(other: Area) {
      start < other.end && end > other.start
    }

    /** What callers must observe: page order, no scratch pages, no standard descriptors. */
    predicate Allowed() {
      start <= end <= SCRATCH && (backing.File? ==> backing.fd > 2)
    }

    /** Pages of the area come from the page allocator and go back to it. */
    predicate Owns() {
      !backing.Linear?
    }
  }

  type Areas = map<nat, Area>
  type Spaces = map<nat, Areas>

  /** Pages from KERNEL_SCRATCH_BASE on hold temporary mappings and belong to no area. */
  const SCRATCH: nat := 0xE0000

  ghost predicate Disjoint(areas: Areas) {
    forall a, b :: a in areas && b in areas && a != b ==> !areas[a].Overlaps(areas[b])
  }

  ghost predicate AreasOk(areas: Areas) {
    Disjoint(areas) && forall a <- areas :: areas[a].Allowed()
  }

  ghost predicate Covered(areas: Areas, page: nat) {
    exists a :: a in areas && areas[a].Covers(page)
  }

  ghost predicate OwningPage(areas: Areas, page: nat) {
    exists a :: a in areas && areas[a].Covers(page) && areas[a].Owns()
  }

  /** The page belongs to an area whose frames are the allocator's. */
  ghost predicate Owning(spaces: Spaces, k: Key) {
    k.0 in spaces && OwningPage(spaces[k.0], k.1)
  }

  /** Outside the scratch range, only pages of areas are present. */
  ghost predicate PagesCovered(spaces: Spaces, flat: Flat) {
    forall k <- flat :: k.0 in spaces && (k.1 >= SCRATCH || Covered(spaces[k.0], k.1))
  }

  /** `owner` sends each outstanding frame to the one page that owns it. */
  ghost predicate FramesOwned(spaces: Spaces, flat: Flat, owner: map<nat, Key>) {
    && (forall f <- owner :: owner[f] in flat && Owning(spaces, owner[f]) && flat[owner[f]].frame == f)
    && (forall k <- flat :: Owning(spaces, k) ==> flat[k].frame in owner && owner[flat[k].frame] == k)
  }

  ghost predicate Sound(spaces: Spaces, flat: Flat, owner: map<nat, Key>) {
    && (forall s <- spaces :: AreasOk(spaces[s]))
    && PagesCovered(spaces, flat)
    && FramesOwned(spaces, flat, owner)
  }

  /** The frames that owning pages map. */
  ghost function OwnedFrames(spaces: Spaces, flat: Flat): set<nat> {
    set k | k in flat && Owning(spaces, k) :: flat[k].frame
  }

  /** No frame has two owners, and the frames with an owner are exactly the outstanding ones. */
  lemma UniqueOwnership(spaces: Spaces, flat: Flat, owner: map<nat, Key>)
    requires Sound(spaces, flat, owner)
    ensures forall k1, k2 | k1 in flat && k2 in flat && Owning(spaces, k1) && Owning(spaces, k2)
              :: flat[k1].frame == flat[k2].frame ==> k1 == k2
    ensures OwnedFrames(spaces, flat) == owner.Keys
  {
    forall f | f in owner
      ensures f in OwnedFrames(spaces, flat)
    {
      assert flat[owner[f]].frame == f;
    }
  }

  /** A store through one owning page is not seen through any other, in its own space or another. */
  lemma StoresAreIsolated<C>(spaces: Spaces, flat: Flat, owner: map<nat, Key>, ram: map<nat, C>, k: Key, c: C,
                             other: Key)
    requires Sound(spaces, flat, owner)
    requires k in flat && Owning(spaces, k) && other in flat && Owning(spaces, other) && other != k
    requires flat[other].frame in ram
    ensures ram[flat[k].frame := c][flat[other].frame] == ram[flat[other].frame]
  {
    UniqueOwnership(spaces, flat, owner);
  }

  /** At most one area covers a page, so a page of a linear area owns nothing. */
  lemma OneCover(areas: Areas, page: nat, a: nat)
    requires AreasOk(areas) && a in areas && areas[a].Covers(page)
    ensures OwningPage(areas, page) <==> areas[a].Owns()
    ensures page < SCRATCH
  {
  }

  lemma ScratchOwnsNothing(areas: Areas, page: nat)
    requires AreasOk(areas) && page >= SCRATCH
    ensures !Covered(areas, page) && !OwningPage(areas, page)
  {
  }

  // Changes to the mappings.

  /** A fresh frame goes into an absent page of an owning area. */
  lemma ClaimKeeps(spaces: Spaces, flat: Flat, owner: map<nat, Key>, k: Key, pte: Pte)
    requires Sound(spaces, flat, owner)
    requires Owning(spaces, k) && k !in flat && pte.frame !in owner
    ensures Sound(spaces, flat[k := pte], owner[pte.frame := k])
  {
  }

  /** A present page changes its flags and keeps its frame. */
  lemma ReflagKeeps(spaces: Spaces, flat: Flat, owner: map<nat, Key>, k: Key, pte: Pte)
    requires Sound(spaces, flat, owner) && k in flat && pte.frame == flat[k].frame
    ensures Sound(spaces, flat[k := pte], owner)
  {
    hide Owning, Covered, AreasOk;
  }

  /** A present owning page gives up its frame. */
  lemma ReleaseKeeps(spaces: Spaces, flat: Flat, owner: map<nat, Key>, k: Key)
    requires Sound(spaces, flat, owner) && k in flat && Owning(spaces, k)
    ensures flat[k].frame in owner && Sound(spaces, flat - {k}, owner - {flat[k].frame})
  {
  }

  /** Whatever is mapped at a page that owns nothing (scratch or linear) leaves ownership alone. */
  lemma BorrowKeeps(spaces: Spaces, flat: Flat, owner: map<nat, Key>, k: Key, pte: Pte)
    requires Sound(spaces, flat, owner)
    requires k.0 in spaces && !OwningPage(spaces[k.0], k.1) && (k.1 >= SCRATCH || Covered(spaces[k.0], k.1))
    ensures Sound(spaces, flat[k := pte], owner) && Sound(spaces, flat - {k}, owner)
  {
    hide OwningPage, Covered, AreasOk;
  }

  // Changes to the areas.

  ghost function WithAreas(spaces: Spaces, s: nat, areas: Areas): Spaces {
    spaces[s := areas]
  }

  /** Areas may change as long as every present page keeps its kind. */
  lemma AreasKeep(spaces: Spaces, flat: Flat, owner: map<nat, Key>, s: nat, areas: Areas)
    requires Sound(spaces, flat, owner) && s in spaces && AreasOk(areas)
    requires forall p: nat :: (s, p) in flat ==> (OwningPage(areas, p) <==> OwningPage(spaces[s], p))
    requires forall p: nat :: (s, p) in flat ==> p >= SCRATCH || Covered(areas, p)
    ensures Sound(WithAreas(spaces, s, areas), flat, owner)
  {
    hide OwningPage, Covered, AreasOk;
    assert forall k <- flat :: k.0 == s ==> (s, k.1) in flat;
  }

  lemma MoreCovers(areas: Areas, a: nat, area: Area, p: nat)
    requires AreasOk(areas) && a !in areas && !area.Covers(p)
    ensures OwningPage(areas[a := area], p) <==> OwningPage(areas, p)
    ensures Covered(areas[a := area], p) <==> Covered(areas, p)
  {
    var more := areas[a := area];
    assert forall b <- areas :: b in more && more[b] == areas[b];
  }

  lemma FewerCovers(areas: Areas, a: nat, p: nat)
    requires AreasOk(areas) && a in areas && !areas[a].Covers(p)
    ensures OwningPage(areas - {a}, p) <==> OwningPage(areas, p)
    ensures Covered(areas - {a}, p) <==> Covered(areas, p)
  {
    var fewer := areas - {a};
    assert forall b <- areas :: b != a ==> b in fewer && fewer[b] == areas[b];
  }

  /** A new area that overlaps no other one starts out without present pages. */
  lemma AddAreaKeeps(spaces: Spaces, flat: Flat, owner: map<nat, Key>, s: nat, a: nat, area: Area)
    requires Sound(spaces, flat, owner) && s in spaces && a !in spaces[s]
    requires area.Allowed() && forall b <- spaces[s] :: !area.Overlaps(spaces[s][b])
    ensures Sound(WithAreas(spaces, s, spaces[s][a := area]), flat, owner)
    ensures forall p: nat :: area.Covers(p) ==> (s, p) !in flat
  {
    NewAreaIsEmpty(spaces, flat, s, area);
    hide OwningPage, Covered, FramesOwned, PagesCovered;
    assert AreasOk(spaces[s][a := area]);
    forall p: nat | (s, p) in flat
      ensures OwningPage(spaces[s][a := area], p) <==> OwningPage(spaces[s], p)
      ensures Covered(spaces[s][a := area], p) <==> Covered(spaces[s], p)
    {
      MoreCovers(spaces[s], a, area, p);
    }
    PresentIsCovered(spaces, flat, s);
    AreasKeep(spaces, flat, owner, s, spaces[s][a := area]);
  }

  lemma NewAreaIsEmpty(spaces: Spaces, flat: Flat, s: nat, area: Area)
    requires PagesCovered(spaces, flat) && s in spaces
    requires area.end <= SCRATCH && forall b <- spaces[s] :: !area.Overlaps(spaces[s][b])
    ensures forall p: nat :: area.Covers(p) ==> (s, p) !in flat
  {
  }

  lemma PresentIsCovered(spaces: Spaces, flat: Flat, s: nat)
    requires PagesCovered(spaces, flat) && s in spaces
    ensures forall p: nat :: (s, p) in flat ==> p >= SCRATCH || Covered(spaces[s], p)
  {
    hide Covered;
  }

  /** An area without present pages can go. */
  lemma RemoveAreaKeeps(spaces: Spaces, flat: Flat, owner: map<nat, Key>, s: nat, a: nat)
    requires Sound(spaces, flat, owner) && s in spaces && a in spaces[s]
    requires forall p: nat :: spaces[s][a].Covers(p) ==> (s, p) !in flat
    ensures Sound(WithAreas(spaces, s, spaces[s] - {a}), flat, owner)
  {
    hide OwningPage, Covered, FramesOwned, PagesCovered;
    assert AreasOk(spaces[s] - {a});
    forall p: nat | (s, p) in flat
      ensures OwningPage(spaces[s] - {a}, p) <==> OwningPage(spaces[s], p)
      ensures Covered(spaces[s] - {a}, p) <==> Covered(spaces[s], p)
    {
      FewerCovers(spaces[s], a, p);
    }
    PresentIsCovered(spaces, flat, s);
    AreasKeep(spaces, flat, owner, s, spaces[s] - {a});
  }

  ghost function OtherSpaces(flat: Flat, s: nat): Flat {
    map k | k in flat && k.0 != s :: flat[k]
  }

  lemma AddSpaceKeeps(spaces: Spaces, flat: Flat, owner: map<nat, Key>, s: nat)
    requires Sound(spaces, flat, owner) && s !in spaces
    ensures Sound(WithAreas(spaces, s, map[]), flat, owner)
    ensures forall k <- flat :: k.0 != s
  {
  }

  /** A space without areas has only scratch pages left, which own nothing. */
  lemma RemoveSpaceKeeps(spaces: Spaces, flat: Flat, owner: map<nat, Key>, s: nat)
    requires Sound(spaces, flat, owner) && s in spaces && spaces[s] == map[]
    ensures Sound(spaces - {s}, OtherSpaces(flat, s), owner)
  {
  }
}
