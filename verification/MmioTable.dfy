/**
 The table of memory-mapped I/O handlers of mmio.c as a value, together with the address space
 its ranges are reserved in.  There is one table and one virtual machine.
 */
module MmioTable {
  import opened Bytes
  import opened AddressSpace

  const MAX_MMIO_REGION_COUNT: nat := 64

  /** An entry of the table; `writer` names the write handler, if there is one. */
  datatype Slot = Slot(id: int, base: u64, high: u64, writer: Option<nat>)

  /** `high - base` as the source computes it, in 64 bits. */
  function Extent(base: u64, high: u64): u64 {
    if base <= high then high - base else high - base + U64_SPAN
  }

  /**
   The table, the address space, and for each slot the region that was reserved for its range
   (-1 for a slot that was never filled); no operation looks at `owner`.
   */
  datatype World = World(space: Space, slots: seq<Slot>, owner: seq<int>)

  ghost predicate Sized(w: World) {
    |w.slots| == |w.owner| == MAX_MMIO_REGION_COUNT
  }

  /** The table of a program that has just been started: all bytes zero. */
  const ZEROED: World :=
    World(EMPTY, seq(MAX_MMIO_REGION_COUNT, _ => Slot(0, 0, 0, None)), seq(MAX_MMIO_REGION_COUNT, _ => -1))

  /** The first free slot from `i` on; the length of the table if there is none. */
  function FirstFree(slots: seq<Slot>, i: nat): (k: nat)
    requires i <= |slots|
    ensures i <= k <= |slots|
    ensures k < |slots| ==> slots[k].id == -1
    ensures forall j :: i <= j < k ==> slots[j].id != -1
    decreases |slots| - i
  {
    if i == |slots| || slots[i].id == -1 then i else FirstFree(slots, i + 1)
  }

  function Reservation(base: u64, high: u64): Request {
    Request(base, Extent(base, high), MEMORY_MMIO, true)
  }

  /** What `mmio_register` answers: a slot, or -1 when the range or the table is not free. */
  function RegisterResult(w: World, base: u64, high: u64): int {
    if !Grants(w.space, Reservation(base, high)) then -1
    else if FirstFree(w.slots, 0) == |w.slots| then -1
    else FirstFree(w.slots, 0)
  }

  /** The range stays reserved even if no slot is free for it. */
  function Register(w: World, base: u64, high: u64, writer: Option<nat>): World
    requires |w.slots| == |w.owner|
  {
    var q := Reservation(base, high);
    if !Grants(w.space, q) then w
    else
      var k := FirstFree(w.slots, 0);
      var space := AfterAlloc(w.space, q);
      if k == |w.slots| then w.(space := space)
      else World(space, w.slots[k := Slot(k, base, high, writer)], w.owner[k := |w.space.regions|])
  }

  function Free(slots: seq<Slot>, k: nat): seq<Slot>
    requires k < |slots|
  {
    slots[k := slots[k].(id := -1)]
  }

  function FreeAll(slots: seq<Slot>): seq<Slot> {
    seq(|slots|, i requires 0 <= i < |slots| => slots[i].(id := -1))
  }

  /** What happens to the table or to the address space; `Reserve` is any other allocation. */
  datatype Event =
    | InitTable
    | AddHandler(base: u64, high: u64, writer: Option<nat>)
    | DropHandler(id: nat)
    | Reserve(q: Request)

  function After(w: World, e: Event): World
    requires |w.slots| == |w.owner|
  {
    match e
    case InitTable => w.(slots := FreeAll(w.slots))
    case AddHandler(base, high, writer) => Register(w, base, high, writer)
    case DropHandler(id) => if id < |w.slots| then w.(slots := Free(w.slots, id)) else w
    case Reserve(q) => w.(space := AfterAlloc(w.space, q))
  }

  lemma AfterKeepsSized(w: World, e: Event)
    requires Sized(w)
    ensures Sized(After(w, e))
  {
  }

  /** The slots a guest store at `a` runs, in table order. */
  function Matching(slots: seq<Slot>, a: u64, i: nat): seq<nat>
    requires i <= |slots|
    decreases |slots| - i
  {
    if i == |slots| then []
    else (if Runs(slots[i], a) then [i] else []) + Matching(slots, a, i + 1)
  }

  predicate Covers(s: Slot, a: u64) {
    s.base <= a && s.high > a
  }

  predicate Runs(s: Slot, a: u64) {
    Covers(s, a) && s.writer.Some?
  }

  // ------------------------------------------------------------------ the invariant

  /** A slot whose range is not empty owns a region with that range. */
  ghost predicate OwnsRegion(w: World, i: nat)
    requires i < |w.slots| && i < |w.owner|
  {
    w.slots[i].base < w.slots[i].high ==>
      && 0 <= w.owner[i] < |w.space.regions|
      && w.space.regions[w.owner[i]].start == w.slots[i].base
      && w.space.regions[w.owner[i]].size == w.slots[i].high - w.slots[i].base
  }

  ghost predicate OwnsAlone(w: World, i: nat, j: nat)
    requires i < |w.owner| && j < |w.owner|
  {
    0 <= w.owner[i] ==> w.owner[i] != w.owner[j]
  }

  ghost predicate Reserved(w: World) {
    && Sized(w) && Separated(w.space.regions)
    && (forall i :: 0 <= i < |w.slots| ==> OwnsRegion(w, i) && w.owner[i] < |w.space.regions|)
    && (forall i, j :: 0 <= i < |w.slots| && 0 <= j < |w.slots| && i != j ==> OwnsAlone(w, i, j))
  }

  lemma ZeroedIsReserved()
    ensures Reserved(ZEROED)
  {
  }

  /** More regions at the end leave every slot its own region. */
  lemma MoreRegionsKeepReserved(w: World, space: Space)
    requires Reserved(w) && w.space.regions <= space.regions && Separated(space.regions)
    ensures Reserved(w.(space := space))
  {
    var v := w.(space := space);
    forall i | 0 <= i < |v.slots|
      ensures OwnsRegion(v, i) && v.owner[i] < |space.regions|
    {
      assert OwnsRegion(w, i);
    }
    forall i, j | 0 <= i < |v.slots| && 0 <= j < |v.slots| && i != j
      ensures OwnsAlone(v, i, j)
    {
      assert OwnsAlone(w, i, j);
    }
  }

  lemma RegisterKeepsReserved(w: World, base: u64, high: u64, writer: Option<nat>)
    requires Reserved(w)
    ensures Reserved(Register(w, base, high, writer))
  {
    var q := Reservation(base, high);
    if Grants(w.space, q) {
      AllocKeepsSeparated(w.space, q);
      MoreRegionsKeepReserved(w, AfterAlloc(w.space, q));
      var u, v := w.(space := AfterAlloc(w.space, q)), Register(w, base, high, writer);
      forall i | 0 <= i < |v.slots|
        ensures OwnsRegion(v, i) && v.owner[i] < |v.space.regions|
      {
        assert OwnsRegion(u, i);
      }
      forall i, j | 0 <= i < |v.slots| && 0 <= j < |v.slots| && i != j
        ensures OwnsAlone(v, i, j)
      {
        assert OwnsAlone(u, i, j) && w.owner[i] < |w.space.regions| && w.owner[j] < |w.space.regions|;
      }
    }
  }

  lemma AfterKeepsReserved(w: World, e: Event)
    requires Reserved(w)
    ensures Reserved(After(w, e))
  {
    match e
    case InitTable => IdsDoNotMatter(w, FreeAll(w.slots));
    case AddHandler(base, high, writer) => RegisterKeepsReserved(w, base, high, writer);
    case DropHandler(id) => if id < |w.slots| { IdsDoNotMatter(w, Free(w.slots, id)); }
    case Reserve(q) =>
      AllocKeepsSeparated(w.space, q);
      MoreRegionsKeepReserved(w, AfterAlloc(w.space, q));
  }

  /** Clearing ids, which is all `mmio_unregister` and `mmio_init` do, keeps the ranges. */
  lemma IdsDoNotMatter(w: World, slots: seq<Slot>)
    requires Reserved(w) && |slots| == |w.slots|
    requires forall i :: 0 <= i < |slots| ==> slots[i].base == w.slots[i].base && slots[i].high == w.slots[i].high
    ensures Reserved(w.(slots := slots))
  {
    var v := w.(slots := slots);
    forall i | 0 <= i < |slots|
      ensures OwnsRegion(v, i)
    {
      assert OwnsRegion(w, i);
    }
    forall i, j | 0 <= i < |slots| && 0 <= j < |slots| && i != j
      ensures OwnsAlone(v, i, j)
    {
      assert OwnsAlone(w, i, j);
    }
  }

  function AfterAll(w: World, es: seq<Event>): (r: World)
    requires |w.slots| == |w.owner|
    ensures |r.slots| == |w.slots| && |r.owner| == |w.owner|
    decreases |es|
  {
    if es == [] then w else AfterAll(After(w, es[0]), es[1..])
  }

  lemma {:induction false} RunsKeepReserved(w: World, es: seq<Event>)
    requires Reserved(w)
    ensures Reserved(AfterAll(w, es))
    decreases |es|
  {
    if es == [] {
    } else {
      AfterKeepsReserved(w, es[0]);
      RunsKeepReserved(After(w, es[0]), es[1..]);
    }
  }

  // ------------------------------------------------------------------ registration

  /** A registration is refused exactly when a region clashes with the range or every slot is in use. */
  lemma RefusedExactly(w: World, base: u64, high: u64)
    ensures RegisterResult(w, base, high) == -1 <==>
            || (exists i :: 0 <= i < |w.space.regions| && Clashes(w.space.regions[i], base, Extent(base, high)))
            || (forall k :: 0 <= k < |w.slots| ==> w.slots[k].id != -1)
  {
  }

  /** A table that was never initialised has no free slot: it refuses every registration. */
  lemma NothingRegistersBeforeInit(space: Space, base: u64, high: u64)
    ensures RegisterResult(ZEROED.(space := space), base, high) == -1
  {
    RefusedExactly(ZEROED.(space := space), base, high);
  }

  /** What is registered is the range itself, for memory-mapped I/O, from its first byte up to the high address. */
  lemma RegisteredRange(w: World, base: u64, high: u64, writer: Option<nat>)
    requires Sized(w)
    ensures var v := Register(w, base, high, writer);
            if Available(w.space.regions, base, Extent(base, high))
            then v.space.regions == w.space.regions + [Region(base, Extent(base, high), 0, 2)]
            else v == w
    ensures base <= high ==> base + Extent(base, high) == high
    ensures base > high ==> base + Extent(base, high) == high + 0x1_0000_0000_0000_0000
  {
  }

  /** The slots from `j` on are free, and those before are not. */
  ghost predicate FreeFrom(w: World, j: nat) {
    Sized(w) && forall k :: 0 <= k < |w.slots| ==> (w.slots[k].id == -1 <==> j <= k)
  }

  /** Initialising frees all slots, whatever the table held, and no range. */
  lemma InitFreesEverySlot(w: World)
    requires Sized(w)
    ensures FreeFrom(After(w, InitTable), 0) && After(w, InitTable).space == w.space
  {
  }

  /** The results of registrations made one after the other. */
  function Results(w: World, adds: seq<Event>): seq<int>
    requires |w.slots| == |w.owner| && forall i :: 0 <= i < |adds| ==> adds[i].AddHandler?
    decreases |adds|
  {
    if adds == [] then []
    else [RegisterResult(w, adds[0].base, adds[0].high)] + Results(After(w, adds[0]), adds[1..])
  }

  /** Each of the registrations finds its range available when it is made. */
  ghost predicate AllAvailable(w: World, adds: seq<Event>)
    requires |w.slots| == |w.owner| && forall i :: 0 <= i < |adds| ==> adds[i].AddHandler?
    decreases |adds|
  {
    adds != [] ==>
      && Available(w.space.regions, adds[0].base, Extent(adds[0].base, adds[0].high))
      && AllAvailable(After(w, adds[0]), adds[1..])
  }

  /** Registering an available range takes the first free slot. */
  lemma RegisterTakesTheNextSlot(w: World, j: nat, base: u64, high: u64, writer: Option<nat>)
    requires FreeFrom(w, j) && j < 64 && Available(w.space.regions, base, Extent(base, high))
    ensures RegisterResult(w, base, high) == j && FreeFrom(Register(w, base, high, writer), j + 1)
  {
    assert w.slots[j].id == -1;
    var k := FirstFree(w.slots, 0);
    assert k == j;
  }

  /** Available ranges get the slots in order, up to the 64 there are. */
  lemma {:induction false} RegistrationsFillTheTable(w: World, j: nat, adds: seq<Event>)
    requires FreeFrom(w, j) && j + |adds| <= 64
    requires (forall i :: 0 <= i < |adds| ==> adds[i].AddHandler?) && AllAvailable(w, adds)
    ensures Results(w, adds) == seq(|adds|, i => j + i)
    decreases |adds|
  {
    if adds == [] {
    } else {
      var e := adds[0];
      RegisterTakesTheNextSlot(w, j, e.base, e.high, e.writer);
      RegistrationsFillTheTable(After(w, e), j + 1, adds[1..]);
    }
  }

  /** Ranges that no region and no earlier one of them clashes with. */
  ghost predicate PairwiseAvailable(w: World, adds: seq<Event>)
    requires forall i :: 0 <= i < |adds| ==> adds[i].AddHandler?
  {
    && (forall j :: 0 <= j < |adds| ==> Available(w.space.regions, adds[j].base, Extent(adds[j].base, adds[j].high)))
    && (forall i, j :: 0 <= i < j < |adds| ==> AfterEachOther(adds[i], adds[j]))
  }

  ghost predicate AfterEachOther(e: Event, f: Event)
    requires e.AddHandler? && f.AddHandler?
  {
    !Clashes(Region(e.base, Extent(e.base, e.high), 0, MEMORY_MMIO), f.base, Extent(f.base, f.high))
  }

  lemma {:induction false} PairwiseIsEnough(w: World, adds: seq<Event>)
    requires Sized(w) && forall i :: 0 <= i < |adds| ==> adds[i].AddHandler?
    requires PairwiseAvailable(w, adds)
    ensures AllAvailable(w, adds)
    decreases |adds|
  {
    if adds == [] {
    } else {
      var v, rest := After(w, adds[0]), adds[1..];
      assert Available(w.space.regions, adds[0].base, Extent(adds[0].base, adds[0].high));
      forall j | 0 <= j < |rest|
        ensures Available(v.space.regions, rest[j].base, Extent(rest[j].base, rest[j].high))
      {
        assert rest[j] == adds[j + 1] && AfterEachOther(adds[0], adds[j + 1]);
        assert Available(w.space.regions, adds[j + 1].base, Extent(adds[j + 1].base, adds[j + 1].high));
      }
      forall i, j | 0 <= i < j < |rest|
        ensures AfterEachOther(rest[i], rest[j])
      {
        assert AfterEachOther(adds[i + 1], adds[j + 1]);
      }
      PairwiseIsEnough(v, rest);
    }
  }

  /** After initialising, whatever was before, registrations of available ranges are given 0, 1, 2, ... */
  lemma InitThenRegister(w: World, adds: seq<Event>)
    requires Sized(w) && |adds| <= 64 && forall i :: 0 <= i < |adds| ==> adds[i].AddHandler?
    requires PairwiseAvailable(w, adds)
    ensures Results(After(w, InitTable), adds) == seq(|adds|, i => i)
  {
    InitFreesEverySlot(w);
    PairwiseIsEnough(After(w, InitTable), adds);
    RegistrationsFillTheTable(After(w, InitTable), 0, adds);
  }

  /** A dropped slot is given out again: the next available range gets it, or an earlier free one. */
  lemma DroppedSlotIsGivenOutAgain(w: World, k: nat, base: u64, high: u64)
    requires Sized(w) && k < 64 && Available(w.space.regions, base, Extent(base, high))
    ensures var r := RegisterResult(After(w, DropHandler(k)), base, high);
            0 <= r <= k && (r < k ==> w.slots[r].id == -1)
    ensures (forall j :: 0 <= j < k ==> w.slots[j].id != -1) ==>
              RegisterResult(After(w, DropHandler(k)), base, high) == k
  {
    var v := After(w, DropHandler(k));
    assert v.slots[k].id == -1;
  }

  // ------------------------------------------------------------------ dispatch

  /** Two slots never cover the same address. */
  lemma CoverIsUnique(w: World, i: nat, j: nat, a: u64)
    requires Reserved(w) && i < |w.slots| && j < |w.slots|
    requires Covers(w.slots[i], a) && Covers(w.slots[j], a)
    ensures i == j
  {
    assert OwnsRegion(w, i) && OwnsRegion(w, j);
    HolderIsUnique(w.space.regions, w.owner[i], w.owner[j], a);
    assert i != j ==> OwnsAlone(w, i, j);
  }

  lemma {:induction false} MatchingIs(slots: seq<Slot>, a: u64, i: nat)
    requires i <= |slots|
    ensures forall k :: k in Matching(slots, a, i) <==> i <= k < |slots| && Runs(slots[k], a)
    decreases |slots| - i
  {
    if i == |slots| {
    } else {
      MatchingIs(slots, a, i + 1);
    }
  }

  lemma {:induction false} MatchingFrom(w: World, a: u64, i: nat)
    requires Reserved(w) && i <= |w.slots|
    ensures |Matching(w.slots, a, i)| <= 1
    decreases |w.slots| - i
  {
    if i == |w.slots| {
    } else {
      MatchingFrom(w, a, i + 1);
      MatchingIs(w.slots, a, i + 1);
      var rest := Matching(w.slots, a, i + 1);
      if rest != [] && Runs(w.slots[i], a) {
        assert rest[0] in rest;
        CoverIsUnique(w, i, rest[0], a);
      }
    }
  }

  /** Whatever was registered, dropped, reset and allocated before, a store runs at most one handler. */
  lemma StoreRunsAtMostOneHandler(es: seq<Event>, a: u64)
    ensures |Matching(AfterAll(ZEROED, es).slots, a, 0)| <= 1
  {
    ZeroedIsReserved();
    RunsKeepReserved(ZEROED, es);
    MatchingFrom(AfterAll(ZEROED, es), a, 0);
  }

  /** A store inside the range of a slot with a write handler runs exactly that handler. */
  lemma StoreRunsTheHandler(es: seq<Event>, i: nat, a: u64)
    requires i < |AfterAll(ZEROED, es).slots| && Runs(AfterAll(ZEROED, es).slots[i], a)
    ensures Matching(AfterAll(ZEROED, es).slots, a, 0) == [i]
  {
    StoreRunsAtMostOneHandler(es, a);
    MatchingIs(AfterAll(ZEROED, es).slots, a, 0);
    var all := Matching(AfterAll(ZEROED, es).slots, a, 0);
    assert i in all;
  }

  // ------------------------------------------------------------------ how long a registration lasts

  predicate Undisturbed(es: seq<Event>, k: nat) {
    forall i :: 0 <= i < |es| ==> !es[i].InitTable? && es[i] != DropHandler(k)
  }

  /** A slot in use stays as it is until it is dropped or the table is initialised again. */
  lemma {:induction false} SlotLasts(w: World, es: seq<Event>, k: nat)
    requires Sized(w) && k < |w.slots| && w.slots[k].id != -1 && Undisturbed(es, k)
    ensures Sized(AfterAll(w, es)) && AfterAll(w, es).slots[k] == w.slots[k]
    decreases |es|
  {
    if es == [] {
    } else {
      var v := After(w, es[0]);
      assert !es[0].InitTable? && es[0] != DropHandler(k);
      assert Undisturbed(es[1..], k) by {
        assert forall i :: 0 <= i < |es[1..]| ==> es[1..][i] == es[i + 1];
      }
      SlotLasts(v, es[1..], k);
    }
  }

  lemma {:induction false} AfterAllConcat(w: World, es: seq<Event>, fs: seq<Event>)
    requires |w.slots| == |w.owner|
    ensures AfterAll(w, es + fs) == AfterAll(AfterAll(w, es), fs)
    decreases |es|
  {
    if es == [] {
      assert es + fs == fs;
    } else {
      assert (es + fs)[0] == es[0] && (es + fs)[1..] == es[1..] + fs;
      AfterAllConcat(After(w, es[0]), es[1..], fs);
    }
  }

  /**
   After a registration that answered with a slot, and until that slot is dropped or the table is
   initialised again, every store in the range runs the registered handler and no other.
   */
  lemma LiveRangeRunsItsHandler(es: seq<Event>, base: u64, high: u64, writer: nat, fs: seq<Event>, a: u64)
    requires var k := RegisterResult(AfterAll(ZEROED, es), base, high);
             0 <= k && Undisturbed(fs, k)
    requires base <= a < high
    ensures var k := RegisterResult(AfterAll(ZEROED, es), base, high);
            var w := AfterAll(ZEROED, es + [AddHandler(base, high, Some(writer))] + fs);
            && k < |w.slots| && w.slots[k] == Slot(k, base, high, Some(writer))
            && Matching(w.slots, a, 0) == [k]
  {
    var w0 := AfterAll(ZEROED, es);
    var e := AddHandler(base, high, Some(writer));
    ZeroedIsReserved();
    RunsKeepReserved(ZEROED, es);
    var k := RegisterResult(w0, base, high);
    var w1 := After(w0, e);
    AfterKeepsSized(w0, e);
    assert w1.slots[k] == Slot(k, base, high, Some(writer));
    SlotLasts(w1, fs, k);
    AfterAllConcat(ZEROED, es, [e]);
    AfterAllConcat(ZEROED, es + [e], fs);
    assert AfterAll(w0, [e]) == w1;
    StoreRunsTheHandler(es + [e] + fs, k, a);
  }

  /** No registration along the events is given slot `k`. */
  ghost predicate NotRefilled(w: World, es: seq<Event>, k: nat)
    requires |w.slots| == |w.owner|
    decreases |es|
  {
    es == [] ||
    (&& (es[0].AddHandler? ==> RegisterResult(w, es[0].base, es[0].high) != k)
     && NotRefilled(After(w, es[0]), es[1..], k))
  }

  /** A slot keeps its range and its handler until it is given to a registration: ids are all that is cleared. */
  lemma {:induction false} HandlerLasts(w: World, es: seq<Event>, k: nat)
    requires Sized(w) && k < |w.slots| && NotRefilled(w, es, k)
    ensures AfterAll(w, es).slots[k] == w.slots[k].(id := AfterAll(w, es).slots[k].id)
    decreases |es|
  {
    if es == [] {
    } else {
      AfterKeepsSized(w, es[0]);
      HandlerLasts(After(w, es[0]), es[1..], k);
    }
  }

  /**
   Dropping a handler does not stop it, and neither does initialising the table: until its slot is
   given to another registration, every store it covers still runs it and no other.
   */
  lemma DroppedSlotStillRuns(w: World, k: nat, es: seq<Event>, a: u64)
    requires Reserved(w) && k < |w.slots| && Runs(w.slots[k], a)
    requires NotRefilled(After(w, DropHandler(k)), es, k)
    ensures var v := AfterAll(After(w, DropHandler(k)), es);
            Matching(v.slots, a, 0) == [k] && v.slots[k].writer == w.slots[k].writer
  {
    var dropped := After(w, DropHandler(k));
    var v := AfterAll(dropped, es);
    AfterKeepsReserved(w, DropHandler(k));
    RunsKeepReserved(dropped, es);
    HandlerLasts(dropped, es, k);
    MatchingFrom(v, a, 0);
    MatchingIs(v.slots, a, 0);
    assert k in Matching(v.slots, a, 0);
  }

  /**
   A registration that is given a slot replaces what the slot ran: stores in the new range run the new
   handler, and stores that only the old range covered run nothing any more.
   */
  lemma RefilledSlotRunsTheNewHandler(w: World, base: u64, high: u64, writer: Option<nat>, a: u64)
    requires Reserved(w) && 0 <= RegisterResult(w, base, high)
    ensures var k := RegisterResult(w, base, high);
            var slots := Register(w, base, high, writer).slots;
            && k < |slots| && slots[k] == Slot(k, base, high, writer)
            && (base <= a < high ==> Matching(slots, a, 0) == if writer.Some? then [k] else [])
            && (!(base <= a < high) && Covers(w.slots[k], a) ==> Matching(slots, a, 0) == [])
  {
    var k, v := RegisterResult(w, base, high), Register(w, base, high, writer);
    RegisterKeepsReserved(w, base, high, writer);
    MatchingFrom(v, a, 0);
    MatchingIs(v.slots, a, 0);
    var all := Matching(v.slots, a, 0);
    if all != [] {
      assert all[0] in all;
      if base <= a < high {
        CoverIsUnique(v, all[0], k, a);
      } else if Covers(w.slots[k], a) {
        CoverIsUnique(w, all[0], k, a);
      }
    } else {
      assert base <= a < high && writer.Some? ==> k in all;
    }
  }

  /** A reserved range refuses itself exactly when it is not empty; empty and reversed ranges do not. */
  lemma OwnRangeClashes(base: u64, high: u64, slot: nat, kind: nat)
    ensures Clashes(Region(base, Extent(base, high), slot, kind), base, Extent(base, high)) <==> base < high
  {
  }

  /**
   A range is never given out again: registering a non-empty one once more fails in every later
   world, with or without a slot.  An empty or reversed range is granted again at once.
   */
  lemma RangesAreNeverReleased(w: World, base: u64, high: u64, writer: Option<nat>, es: seq<Event>)
    requires Sized(w) && Grants(w.space, Reservation(base, high))
    ensures base < high ==> RegisterResult(AfterAll(Register(w, base, high, writer), es), base, high) == -1
    ensures base >= high ==> Grants(Register(w, base, high, writer).space, Reservation(base, high))
  {
    var v := Register(w, base, high, writer);
    var r := v.space.regions[|w.space.regions|];
    OwnRangeClashes(base, high, r.slot, r.kind);
    if base < high {
      RegionsOnlyGrow(v, es);
      assert AfterAll(v, es).space.regions[|w.space.regions|] == r;
      assert Clashes(r, base, Extent(base, high));
    }
  }

  lemma {:induction false} RegionsOnlyGrow(w: World, es: seq<Event>)
    requires |w.slots| == |w.owner|
    ensures w.space.regions <= AfterAll(w, es).space.regions
    decreases |es|
  {
    if es == [] {
    } else {
      RegionsOnlyGrow(After(w, es[0]), es[1..]);
    }
  }
}
