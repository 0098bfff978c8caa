/**
 The page allocator of libraries/support/page_alloc.h: a stack of freed pages and
 a watermark above which no page has been handed out yet.

 Pages are page numbers (address / 0x1000). `Frames` is the value other modules
 compute with; `PageAllocator` keeps the stack in a bookkeeping array whose size
 is fixed in the constructor.
 */
module PageAlloc {
  import opened Pools

  const PAGE_SIZE := 0x1000
  const ADDRESS_SIZE := 4

  datatype Frames = Frames(base: nat, limit: nat, watermark: nat, stack: seq<nat>) {

    ghost predicate Valid() {
      && base <= watermark <= limit
      && Distinct(stack)
      && (forall k :: 0 <= k < |stack| ==> base <= stack[k] < watermark)
    }

    /** The pages that are handed out and not freed. */
    ghost function Outstanding(): set<nat> {
      set f: nat | base <= f < watermark && f !in stack
    }

    function FreePages(): int {
      limit - watermark + |stack|
    }

    predicate Exhausted() {
      stack == [] && watermark >= limit
    }

    /** The page the next allocation returns. */
    function Next(): nat {
      if stack != [] then stack[|stack| - 1] else watermark
    }

    function Alloc(): (r: Frames)
      requires Valid() && !Exhausted()
      ensures r.Valid() && r.base == base && r.limit == limit
      ensures base <= Next() < limit && Next() !in Outstanding() && r.Outstanding() == Outstanding() + {Next()}
      ensures r.FreePages() == FreePages() - 1
    {
      if stack != [] then
        ghost var rest := stack[..|stack| - 1];
        assert stack == rest + [stack[|stack| - 1]];
        this.(stack := stack[..|stack| - 1])
      else
        this.(watermark := watermark + 1)
    }

    function Free(f: nat): (r: Frames)
      requires Valid() && f in Outstanding()
      ensures r.Valid() && r.base == base && r.limit == limit
      ensures r.Outstanding() == Outstanding() - {f}
      ensures r.FreePages() == FreePages() + 1
    {
      if f == watermark - 1 then this.(watermark := watermark - 1) else this.(stack := stack + [f])
    }

    /** Pages are conserved: every page of the region is either free or outstanding. */
    lemma Conserved()
      requires Valid()
      ensures |Outstanding()| + FreePages() == limit - base
    {
      hide Below, Elements;
      var all := Below(watermark) - Below(base);
      MinusSize(Below(watermark), Below(base));
      MinusSize(all, Elements(stack));
      assert Outstanding() == all - Elements(stack);
    }

    /** So pages run out exactly when all of the region is outstanding. */
    lemma ExhaustedMeansAllOutstanding()
      requires Valid()
      ensures Exhausted() <==> |Outstanding()| == limit - base
    {
      Conserved();
    }

    /** The free stack stays smaller than the region it is drawn from. */
    lemma StackBound()
      requires Valid()
      ensures |stack| <= watermark - base
    {
      Conserved();
    }
  }

  lemma MinusSize(a: set<nat>, b: set<nat>)
    requires b <= a
    ensures |a - b| == |a| - |b|
  {
    assert a == (a - b) + b;
  }

  class PageAllocator {
    const limit: nat
    const base: nat
    /** The bookkeeping area, one machine word per entry (_fs_start to _fs_end). */
    const entries: array<nat>
    var watermark: nat
    var head: nat

    ghost predicate Valid()
      reads this, entries
    {
      head <= entries.Length && limit - base < entries.Length && Model().Valid()
    }

    ghost function Model(): Frames
      requires head <= entries.Length
      reads this, entries
    {
      Frames(base, limit, watermark, entries[..head])
    }

    /** Takes the bookkeeping pages off the front of the byte range [start, end). */
    constructor (start: nat, end: nat)
      requires start % PAGE_SIZE == 0 && end % PAGE_SIZE == 0 && start <= end
      requires start + BookkeepingPages(start, end) * PAGE_SIZE < end
      ensures Valid() && fresh(entries)
      ensures entries.Length * ADDRESS_SIZE == BookkeepingPages(start, end) * PAGE_SIZE
      ensures Model() == Frames(start / PAGE_SIZE + BookkeepingPages(start, end), end / PAGE_SIZE,
                                start / PAGE_SIZE + BookkeepingPages(start, end), [])
    {
      base := start / PAGE_SIZE + BookkeepingPages(start, end);
      limit := end / PAGE_SIZE;
      watermark := start / PAGE_SIZE + BookkeepingPages(start, end);
      entries := new nat[BookkeepingPages(start, end) * PAGE_SIZE / ADDRESS_SIZE];
      head := 0;
    }

    method AllocPage() returns (page: nat)
      requires Valid() && !Model().Exhausted()
      modifies this
      ensures Valid() && Model() == old(Model()).Alloc()
      ensures page == old(Model()).Next()
    {
      if head != 0 {
        // The source asserts that the stack is strictly below its end here.
        assert head < entries.Length by { Model().StackBound(); }
        head := head - 1;
        assert entries[..head] == old(entries[..head])[..head];
        return entries[head];
      }
      page := watermark;
      watermark := watermark + 1;
    }

    method FreePage(page: nat)
      requires Valid() && page in Model().Outstanding()
      modifies this, entries
      ensures Valid() && Model() == old(Model()).Free(page)
    {
      if page == watermark - 1 {
        watermark := watermark - 1;
      } else {
        Model().StackBound();
        entries[head] := page;
        head := head + 1;
        assert entries[..head] == old(entries[..head]) + [page];
      }
    }

    method FreePages() returns (n: nat)
      requires Valid()
      ensures n + |Model().Outstanding()| == limit - base
    {
      n := limit - watermark + head;
      Model().Conserved();
    }
  }

  /** How many pages the constructor sets aside for a free stack over [start, end). */
  function BookkeepingPages(start: nat, end: nat): (n: nat)
    requires start <= end
    ensures var bytes := (end - start) / PAGE_SIZE * ADDRESS_SIZE;
      bytes <= n * PAGE_SIZE < bytes + PAGE_SIZE
  {
    ((end - start) / PAGE_SIZE * ADDRESS_SIZE + (PAGE_SIZE - 1)) / PAGE_SIZE
  }
}
