/** mmio.c: registration and dispatch over the handler table, on top of guest memory. */
module Mmio {
  import opened Bytes
  import AddressSpace
  import opened MmioTable
  import GuestMemory

  /** A call of a write handler. */
  datatype Call = Call(slot: nat, writer: nat, address: u64, data: seq<u8>, len: u32)

  /** The handlers that cover the address, in table order from slot `i` on. */
  function CallsFrom(slots: seq<Slot>, i: nat, address: u64, data: seq<u8>, len: u32): (calls: seq<Call>)
    requires i <= |slots|
    decreases |slots| - i
  {
    if i == |slots| then []
    else (if Runs(slots[i], address) then [Call(i, slots[i].writer.value, address, data, len)] else [])
         + CallsFrom(slots, i + 1, address, data, len)
  }

  lemma {:induction false} NoCalls(slots: seq<Slot>, i: nat, address: u64, data: seq<u8>, len: u32)
    requires i <= |slots| && forall k :: i <= k < |slots| ==> !Runs(slots[k], address)
    ensures CallsFrom(slots, i, address, data, len) == []
    decreases |slots| - i
  {
    if i == |slots| {
    } else {
      NoCalls(slots, i + 1, address, data, len);
    }
  }

  /** If a slot covers the address, its handler is the only call. */
  lemma {:induction false} OneCall(w: World, i: nat, k: nat, address: u64, data: seq<u8>, len: u32)
    requires Reserved(w) && i <= k < |w.slots| && Runs(w.slots[k], address)
    ensures CallsFrom(w.slots, i, address, data, len)
         == [Call(k, w.slots[k].writer.value, address, data, len)]
    decreases k - i
  {
    forall j | 0 <= j < |w.slots| && Runs(w.slots[j], address)
      ensures j == k
    {
      if j != k {
        CoverIsUnique(w, j, k, address);
      }
    }
    if i < k {
      OneCall(w, i + 1, k, address, data, len);
    } else {
      NoCalls(w.slots, k + 1, address, data, len);
    }
  }

  /** The dispatch loop. */
  method RunHandlers(regions: array<Slot>, address: u64, data: seq<u8>, len: u32) returns (calls: seq<Call>)
    ensures calls == CallsFrom(regions[..], 0, address, data, len)
  {
    calls := [];
    for i := 0 to regions.Length
      invariant calls + CallsFrom(regions[..], i, address, data, len)
             == CallsFrom(regions[..], 0, address, data, len)
    {
      if regions[i].base <= address && regions[i].high > address && regions[i].writer != None {
        calls := calls + [Call(i, regions[i].writer.value, address, data, len)];
      }
    }
  }

  class Table {
    const regions: array<Slot>
    const mem: GuestMemory.Memory
    ghost var owner: seq<int>

    ghost function View(): World
      reads this, regions, mem, mem.entries
    {
      World(mem.Spaces(), regions[..], owner)
    }

    ghost predicate Valid()
      reads this, regions, mem, mem.entries, mem.entries.spine
    {
      mem.Valid() && Reserved(View())
    }

    constructor (mem: GuestMemory.Memory)
      requires mem.Valid()
      ensures Valid() && this.mem == mem && fresh(regions)
      ensures View() == ZEROED.(space := mem.Spaces())
    {
      this.mem := mem;
      regions := new Slot[MAX_MMIO_REGION_COUNT](_ => Slot(0, 0, 0, None));
      owner := ZEROED.owner;
      new;
      assert regions[..] == ZEROED.slots;
    }

    method Init()
      requires Valid()
      modifies regions
      ensures Valid() && View() == After(old(View()), InitTable)
    {
      ghost var w := View();
      for i := 0 to regions.Length
        invariant forall k :: 0 <= k < i ==> regions[k] == w.slots[k].(id := -1)
        invariant forall k :: i <= k < regions.Length ==> regions[k] == w.slots[k]
      {
        regions[i] := regions[i].(id := -1);
      }
      assert regions[..] == FreeAll(w.slots);
      AfterKeepsReserved(w, InitTable);
    }

    /** Reserves the range and enters it in the first free slot; the slot, or -1. */
    method Register(base: u64, high: u64, writer: Option<nat>) returns (id: int)
      requires Valid()
      modifies this, regions, mem, mem.entries, mem.entries.made
      ensures Valid() && View() == After(old(View()), AddHandler(base, high, writer))
      ensures id == RegisterResult(old(View()), base, high)
    {
      ghost var w := View();
      AfterKeepsReserved(w, AddHandler(base, high, writer));
      var ok := mem.Alloc(base, Extent(base, high), AddressSpace.MEMORY_MMIO, true);
      if !ok {
        assert View() == w;
        return -1;
      }
      var i := 0;
      while i < regions.Length
        invariant i <= regions.Length && FirstFree(w.slots, 0) == FirstFree(w.slots, i)
        invariant regions[..] == w.slots && owner == w.owner
        invariant mem.Valid() && mem.Spaces() == AddressSpace.AfterAlloc(w.space, Reservation(base, high))
      {
        if regions[i].id == -1 {
          regions[i] := Slot(i, base, high, writer);
          owner := owner[i := |w.space.regions|];
          assert regions[..] == w.slots[i := Slot(i, base, high, writer)];
          return i;
        }
        i := i + 1;
      }
      return -1;
    }

    /** `memory_alloc` on the same machine by anyone else. */
    method Allocate(q: AddressSpace.Request) returns (ok: bool)
      requires Valid()
      modifies mem, mem.entries, mem.entries.made
      ensures Valid() && View() == After(old(View()), Reserve(q))
      ensures ok == AddressSpace.Grants(old(mem.Spaces()), q)
    {
      ghost var w := View();
      AfterKeepsReserved(w, Reserve(q));
      ok := mem.Alloc(q.start, q.size, q.kind, q.hostOk);
      assert View() == World(mem.Spaces(), w.slots, w.owner);
    }

    method Unregister(id: int)
      requires Valid() && 0 <= id
      modifies regions
      ensures Valid() && View() == After(old(View()), DropHandler(id))
    {
      ghost var w := View();
      AfterKeepsReserved(w, DropHandler(id));
      if id < MAX_MMIO_REGION_COUNT {
        regions[id] := regions[id].(id := -1);
        assert regions[..] == Free(w.slots, id);
      }
    }

    /** A guest store runs the write handler of the one slot that covers the address, if one does. */
    method HandleWrite(address: u64, data: seq<u8>, len: u32) returns (calls: seq<Call>)
      requires Valid()
      ensures |calls| <= 1
      ensures forall k :: 0 <= k < regions.Length && Runs(regions[k], address) ==>
                calls == [Call(k, regions[k].writer.value, address, data, len)]
      ensures (forall k :: 0 <= k < regions.Length ==> !Runs(regions[k], address)) ==> calls == []
    {
      calls := RunHandlers(regions, address, data, len);
      forall k | 0 <= k < regions.Length && Runs(regions[k], address)
        ensures calls == [Call(k, regions[k].writer.value, address, data, len)]
      {
        OneCall(View(), 0, k, address, data, len);
      }
      if forall k :: 0 <= k < regions.Length ==> !Runs(regions[k], address) {
        NoCalls(regions[..], 0, address, data, len);
      }
    }
  }
}
