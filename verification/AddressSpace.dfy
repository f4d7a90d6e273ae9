/**
 The guest physical address space of memory.c as a value: the list of regions, who may be added
 to it, and which region an address belongs to.  All sums are 64-bit sums that wrap.
 */
module AddressSpace {
  import opened Bytes

  const MEMORY_USABLE: nat := 1
  const MEMORY_MMIO: nat := 2
  const MEMORY_FRAMEBUFFER: nat := 3

  datatype Region = Region(start: u64, size: u64, slot: nat, kind: nat)

  /** The end of the range does not fit into 64 bits. */
  predicate Wraps(start: u64, size: u64) {
    start + size >= U64_SPAN
  }

  predicate Holds(r: Region, a: u64) {
    r.start <= a && Add64(r.start, r.size) > a
  }

  /** The test by which `check_addr_available` refuses a new range on account of one region. */
  predicate Clashes(r: Region, start: u64, size: u64) {
    || (r.start <= start && Add64(r.start, r.size) > start)
    || (Add64(start, size) >= r.start && start < r.start)
  }

  predicate Available(regions: seq<Region>, start: u64, size: u64) {
    forall i :: 0 <= i < |regions| ==> !Clashes(regions[i], start, size)
  }

  /** The first region, in list order, that holds an address; the length of the list if none does. */
  function Find(regions: seq<Region>, a: u64): (i: nat)
    ensures i <= |regions|
    ensures i < |regions| ==> Holds(regions[i], a)
  {
    if regions == [] then 0
    else if Holds(regions[0], a) then 0
    else 1 + Find(regions[1..], a)
  }

  /** `Find` is told apart from every other position by being the first holder, or the length. */
  lemma {:induction false} FindIsFirst(regions: seq<Region>, a: u64, i: nat)
    requires i <= |regions|
    ensures Find(regions, a) == i <==>
            && (i < |regions| ==> Holds(regions[i], a))
            && forall j :: 0 <= j < i ==> !Holds(regions[j], a)
  {
    if regions == [] {
    } else {
      if i > 0 {
        FindIsFirst(regions[1..], a, i - 1);
        assert forall j :: 1 <= j < i ==> regions[j] == regions[1..][j - 1];
        assert (forall j :: 0 <= j < i ==> !Holds(regions[j], a)) <==>
               !Holds(regions[0], a) && forall j :: 0 <= j < i - 1 ==> !Holds(regions[1..][j], a);
      }
    }
  }

  // ------------------------------------------------------------------ allocation

  datatype Space = Space(regions: seq<Region>, nextSlot: nat)

  const EMPTY: Space := Space([], 0)

  /** A call of `memory_alloc`; `hostOk` is whether the host gives the memory. */
  datatype Request = Request(start: u64, size: u64, kind: nat, hostOk: bool)

  function NextSlot(slot: nat): nat {
    if slot + 1 == U32_SPAN then 0 else slot + 1
  }

  predicate Grants(s: Space, q: Request) {
    && Available(s.regions, q.start, q.size)
    && (q.kind == MEMORY_MMIO || (q.kind in {MEMORY_USABLE, MEMORY_FRAMEBUFFER} && q.hostOk))
  }

  function NewRegion(s: Space, q: Request): Region {
    if q.kind == MEMORY_MMIO then Region(q.start, q.size, 0, MEMORY_MMIO)
    else Region(q.start, q.size, s.nextSlot, MEMORY_USABLE)
  }

  function AfterAlloc(s: Space, q: Request): Space {
    if !Grants(s, q) then s
    else Space(s.regions + [NewRegion(s, q)],
               if q.kind == MEMORY_MMIO then s.nextSlot else NextSlot(s.nextSlot))
  }

  function AfterAllocs(s: Space, qs: seq<Request>): Space
    decreases |qs|
  {
    if qs == [] then s else AfterAllocs(AfterAlloc(s, qs[0]), qs[1..])
  }

  /**
   Which requests are granted, and what they leave: a range no region clashes with, for memory-mapped
   I/O, or for memory or a framebuffer if the host gives the memory.  Exactly the range asked for is
   added, stored as memory in the latter two cases.
   */
  lemma GrantedExactly(s: Space, q: Request)
    ensures Grants(s, q) <==>
            && (forall i :: 0 <= i < |s.regions| ==> !Clashes(s.regions[i], q.start, q.size))
            && (q.kind == 2 || ((q.kind == 1 || q.kind == 3) && q.hostOk))
    ensures AfterAlloc(s, q).regions ==
            if !Grants(s, q) then s.regions
            else if q.kind == 2 then s.regions + [Region(q.start, q.size, 0, 2)]
            else s.regions + [Region(q.start, q.size, s.nextSlot, 1)]
  {
  }

  /** A first framebuffer is granted if the host agrees. */
  lemma FramebufferIsGranted(start: u64, size: u64)
    ensures AfterAlloc(EMPTY, Request(start, size, 3, true)) == Space([Region(start, size, 0, 1)], 1)
  {
  }

  // ------------------------------------------------------------------ separation

  /** Two regions, the first allocated first: apart, with a gap if the new one lies below. */
  predicate Apart(r: Region, later: Region) {
    r.start + r.size <= later.start || later.start + later.size < r.start
  }

  ghost predicate ApartAt(regions: seq<Region>, i: nat, j: nat)
    requires i < |regions| && j < |regions|
  {
    || Wraps(regions[i].start, regions[i].size)
    || Wraps(regions[j].start, regions[j].size)
    || Apart(regions[i], regions[j])
  }

  /** Any two regions whose ends fit into 64 bits are apart. */
  ghost predicate Separated(regions: seq<Region>) {
    forall i, j :: 0 <= i < j < |regions| ==> ApartAt(regions, i, j)
  }

  /**
   When a region accepts a new range, exactly.  A range that wraps is refused only by a region that
   holds its first byte; a region that wraps refuses only ranges that start below it.
   */
  lemma ClashesExactly(r: Region, start: u64, size: u64)
    ensures !Clashes(r, start, size) <==>
            || (if Wraps(r.start, r.size) then r.start <= start else r.start + r.size <= start)
            || (if Wraps(start, size) then start < r.start else start + size < r.start)
  {
  }

  /**
   A range that was accepted is really apart from a region exactly when the lower one of the two,
   by first byte, has an end that fits into 64 bits.
   */
  lemma AcceptedIsApartExactly(r: Region, start: u64, size: u64, slot: nat, kind: nat)
    requires !Clashes(r, start, size)
    ensures Apart(r, Region(start, size, slot, kind)) <==>
            if start < r.start then !Wraps(start, size) else !Wraps(r.start, r.size)
  {
  }

  /** A range that wraps is accepted on top of a region that starts above its first byte. */
  lemma WrappingRangeIsAcceptedOnTop()
    ensures var r := Region(0x1000, 0x1000, 0, MEMORY_USABLE);
            var q := Request(0x800, 0x1_0000_0000_0000_0000 - 0x800, MEMORY_MMIO, true);
            && Grants(Space([r], 1), q)
            && !Apart(r, NewRegion(Space([r], 1), q))
            && r.start < q.start + q.size && q.start < r.start + r.size
  {
  }

  /** ... and so is a range that does not wrap, on top of one that was reserved before and does. */
  lemma RangeIsAcceptedOnTopOfAWrappingOne()
    ensures var first := Request(0x800, 0x1_0000_0000_0000_0000 - 0x800, MEMORY_MMIO, true);
            var second := Request(0x1000, 0x1000, MEMORY_USABLE, true);
            var s := AfterAlloc(EMPTY, first);
            && Grants(EMPTY, first) && Grants(s, second) && !Wraps(second.start, second.size)
            && !Apart(NewRegion(EMPTY, first), NewRegion(s, second))
  {
  }

  lemma AllocKeepsSeparated(s: Space, q: Request)
    requires Separated(s.regions)
    ensures Separated(AfterAlloc(s, q).regions)
  {
    if Grants(s, q) {
      var t := AfterAlloc(s, q).regions;
      forall i, j | 0 <= i < j < |t|
        ensures ApartAt(t, i, j)
      {
        if j < |s.regions| {
          assert ApartAt(s.regions, i, j);
        } else if !Wraps(t[i].start, t[i].size) {
          ClashesExactly(s.regions[i], q.start, q.size);
        }
      }
    }
  }

  /** Whatever is asked for, in whatever order, the regions stay separated. */
  lemma {:induction false} RunsStaySeparated(s: Space, qs: seq<Request>)
    requires Separated(s.regions)
    ensures Separated(AfterAllocs(s, qs).regions)
    decreases |qs|
  {
    if qs == [] {
    } else {
      AllocKeepsSeparated(s, qs[0]);
      RunsStaySeparated(AfterAlloc(s, qs[0]), qs[1..]);
    }
  }

  ghost predicate AcceptedAt(regions: seq<Region>, i: nat, j: nat)
    requires i < |regions| && j < |regions|
  {
    !Clashes(regions[i], regions[j].start, regions[j].size)
  }

  /** Every region was accepted by those before it. */
  ghost predicate Accepted(regions: seq<Region>) {
    forall i, j :: 0 <= i < j < |regions| ==> AcceptedAt(regions, i, j)
  }

  lemma {:induction false} RunsStayAccepted(s: Space, qs: seq<Request>)
    requires Accepted(s.regions)
    ensures Accepted(AfterAllocs(s, qs).regions)
    decreases |qs|
  {
    if qs == [] {
    } else {
      var t := AfterAlloc(s, qs[0]).regions;
      forall i, j | 0 <= i < j < |t|
        ensures AcceptedAt(t, i, j)
      {
        assert j < |s.regions| ==> AcceptedAt(s.regions, i, j);
      }
      RunsStayAccepted(AfterAlloc(s, qs[0]), qs[1..]);
    }
  }

  /** Which regions are apart after any run of allocations, wrapping ranges included. */
  lemma RunsAreApartExactly(qs: seq<Request>, i: nat, j: nat)
    requires i < j < |AfterAllocs(EMPTY, qs).regions|
    ensures var regions := AfterAllocs(EMPTY, qs).regions;
            Apart(regions[i], regions[j]) <==>
            if regions[j].start < regions[i].start then !Wraps(regions[j].start, regions[j].size)
            else !Wraps(regions[i].start, regions[i].size)
  {
    var regions := AfterAllocs(EMPTY, qs).regions;
    RunsStayAccepted(EMPTY, qs);
    assert AcceptedAt(regions, i, j);
    var later := regions[j];
    AcceptedIsApartExactly(regions[i], later.start, later.size, later.slot, later.kind);
  }

  /** A range that wraps holds no address at all, so it never answers a lookup. */
  lemma WrappedHoldsNothing(r: Region, a: u64)
    ensures Wraps(r.start, r.size) ==> !Holds(r, a)
  {
  }

  /** No address is held by two regions. */
  lemma HolderIsUnique(regions: seq<Region>, i: nat, j: nat, a: u64)
    requires Separated(regions) && i < |regions| && j < |regions|
    requires Holds(regions[i], a) && Holds(regions[j], a)
    ensures i == j
  {
    WrappedHoldsNothing(regions[i], a);
    WrappedHoldsNothing(regions[j], a);
    assert i < j ==> ApartAt(regions, i, j);
    assert j < i ==> ApartAt(regions, j, i);
  }

  /** After any run of allocations, first match finds the one region that holds the address. */
  lemma LookupFindsTheHolder(qs: seq<Request>, i: nat, a: u64)
    requires i < |AfterAllocs(EMPTY, qs).regions|
    ensures var regions := AfterAllocs(EMPTY, qs).regions;
            Holds(regions[i], a) <==> Find(regions, a) == i
  {
    var regions := AfterAllocs(EMPTY, qs).regions;
    RunsStaySeparated(EMPTY, qs);
    FindIsFirst(regions, a, Find(regions, a));
    if Holds(regions[i], a) {
      HolderIsUnique(regions, i, Find(regions, a), a);
    }
  }

  lemma FoundIfHeld(regions: seq<Region>, i: nat, a: u64)
    requires Separated(regions) && i < |regions| && Holds(regions[i], a)
    ensures Find(regions, a) == i
  {
    FindIsFirst(regions, a, Find(regions, a));
    HolderIsUnique(regions, i, Find(regions, a), a);
  }

  /** ... and so does first match on the same regions listed in any other order. */
  lemma {:induction false} ListOrderDoesNotMatter(regions: seq<Region>, shuffled: seq<Region>, a: u64)
    requires Separated(regions) && multiset(regions) == multiset(shuffled)
    ensures Find(regions, a) < |regions| <==> Find(shuffled, a) < |shuffled|
    ensures Find(regions, a) < |regions| ==> shuffled[Find(shuffled, a)] == regions[Find(regions, a)]
  {
    var i, j := Find(regions, a), Find(shuffled, a);
    if j < |shuffled| {
      assert shuffled[j] in multiset(shuffled);
      var k :| 0 <= k < |regions| && regions[k] == shuffled[j];
      FoundIfHeld(regions, k, a);
    }
    if i < |regions| {
      assert regions[i] in multiset(regions);
      var k :| 0 <= k < |shuffled| && shuffled[k] == regions[i];
      FindIsFirst(shuffled, a, j);
    }
  }

  // ------------------------------------------------------------------ slots and kinds

  function CountUsable(regions: seq<Region>): nat {
    if regions == [] then 0
    else CountUsable(regions[..|regions| - 1]) + if regions[|regions| - 1].kind == MEMORY_USABLE then 1 else 0
  }

  ghost predicate SlottedAt(regions: seq<Region>, i: nat)
    requires i < |regions|
  {
    && regions[i].kind in {MEMORY_USABLE, MEMORY_MMIO}
    && regions[i].slot ==
       if regions[i].kind == MEMORY_USABLE then CountUsable(regions[..i]) % U32_SPAN else 0
  }

  /**
   The usable regions carry the slots 0, 1, 2, ... in list order, wrapped to 32 bits, and the
   next slot is their number; framebuffers are stored as usable, so every region is one of two kinds.
   */
  ghost predicate Slotted(s: Space) {
    && s.nextSlot == CountUsable(s.regions) % U32_SPAN
    && forall i :: 0 <= i < |s.regions| ==> SlottedAt(s.regions, i)
  }

  lemma AllocKeepsSlotted(s: Space, q: Request)
    requires Slotted(s)
    ensures Slotted(AfterAlloc(s, q))
  {
    if Grants(s, q) {
      var t := AfterAlloc(s, q).regions;
      assert t[..|t| - 1] == s.regions;
      forall i | 0 <= i < |t|
        ensures SlottedAt(t, i)
      {
        if i < |s.regions| {
          assert SlottedAt(s.regions, i) && t[..i] == s.regions[..i];
        }
      }
    }
  }

  lemma {:induction false} RunsStaySlotted(s: Space, qs: seq<Request>)
    requires Slotted(s)
    ensures Slotted(AfterAllocs(s, qs))
    decreases |qs|
  {
    if qs == [] {
    } else {
      AllocKeepsSlotted(s, qs[0]);
      RunsStaySlotted(AfterAlloc(s, qs[0]), qs[1..]);
    }
  }

  /** Regions are only ever added at the end. */
  lemma {:induction false} RunsOnlyAppend(s: Space, qs: seq<Request>)
    ensures s.regions <= AfterAllocs(s, qs).regions
    decreases |qs|
  {
    if qs == [] {
    } else {
      RunsOnlyAppend(AfterAlloc(s, qs[0]), qs[1..]);
    }
  }

  // ------------------------------------------------------------------ the e820 export

  const E820_USABLE: nat := 1
  const E820_RESERVED: nat := 2

  datatype E820Entry = E820Entry(base: u64, size: u64, kind: nat)

  function E820Of(r: Region): E820Entry {
    E820Entry(r.start, r.size, if r.kind == MEMORY_USABLE then E820_USABLE else E820_RESERVED)
  }

  /**
   After any run of allocations two ranges of the table are apart exactly when the lower one, by
   first byte, has an end that fits into 64 bits.
   */
  lemma E820RangesAreApartExactly(qs: seq<Request>, i: nat, j: nat)
    requires i < j < |AfterAllocs(EMPTY, qs).regions|
    ensures var regions := AfterAllocs(EMPTY, qs).regions;
            var a, b := E820Of(regions[i]), E820Of(regions[j]);
            (a.base + a.size <= b.base || b.base + b.size < a.base) <==>
            if b.base < a.base then !Wraps(b.base, b.size) else !Wraps(a.base, a.size)
  {
    RunsAreApartExactly(qs, i, j);
  }

  /** An entry has the base and size of its region, and type 1 exactly for a region of memory, else 2. */
  lemma E820Exactly(r: Region)
    ensures E820Of(r).base == r.start && E820Of(r).size == r.size
    ensures E820Of(r).kind == if r.kind == 1 then 1 else 2
  {
  }

  /**
   Over any run, a granted request has its entry in the table: its own range, and type 2 exactly if
   it was for memory-mapped I/O, so a framebuffer is listed as memory.
   */
  lemma GrantedIsListed(s: Space, q: Request, later: seq<Request>)
    requires Grants(s, q)
    ensures var regions := AfterAllocs(AfterAlloc(s, q), later).regions;
            |s.regions| < |regions|
            && E820Of(regions[|s.regions|]) == E820Entry(q.start, q.size, if q.kind == 2 then 2 else 1)
  {
    RunsOnlyAppend(AfterAlloc(s, q), later);
  }

  /** ... and every entry is there for a request. */
  lemma {:induction false} ListedWasGranted(s: Space, qs: seq<Request>, i: nat)
    requires |s.regions| <= i < |AfterAllocs(s, qs).regions|
    ensures exists q :: q in qs && E820Of(AfterAllocs(s, qs).regions[i])
                                   == E820Entry(q.start, q.size, if q.kind == 2 then 2 else 1)
    decreases |qs|
  {
    if qs == [] {
    } else {
      var next := AfterAlloc(s, qs[0]);
      if |next.regions| <= i {
        ListedWasGranted(next, qs[1..], i);
      } else {
        GrantedIsListed(s, qs[0], qs[1..]);
        assert qs[0] in qs;
      }
    }
  }
}
