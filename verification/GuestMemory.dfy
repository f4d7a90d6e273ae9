/** memory.c on the linked list: allocation, access and the e820 export. */
module GuestMemory {
  import opened Bytes
  import opened LinkedList
  import opened AddressSpace
  import opened FlatMemory

  /** A `memory_entry`; `memory` is null for a region without memory behind it. */
  datatype Entry = Entry(memory: array?<u8>, region: Region)

  function RegionsIn(nodes: seq<Node<Entry>>): (regions: seq<Region>)
    ensures |regions| == |nodes|
  {
    seq(|nodes|, i requires 0 <= i < |nodes| => nodes[i].value.region)
  }

  /** A usable region has memory of its size behind it, other regions have none. */
  ghost predicate Backing(e: Entry) {
    if e.region.kind == MEMORY_USABLE
    then e.memory != null && e.memory.Length == e.region.size
    else e.memory == null
  }

  ghost predicate Unshared(nodes: seq<Node<Entry>>, i: nat, j: nat)
    requires i < |nodes| && j < |nodes|
  {
    nodes[i].value.memory != null ==> nodes[i].value.memory != nodes[j].value.memory
  }

  /** Every usable region has memory of its own. */
  ghost predicate Owned(nodes: seq<Node<Entry>>) {
    && (forall i :: 0 <= i < |nodes| ==> Backing(nodes[i].value))
    && (forall i, j :: 0 <= i < |nodes| && 0 <= j < |nodes| && i != j ==> Unshared(nodes, i, j))
  }

  ghost function Arrays(nodes: seq<Node<Entry>>): set<object?> {
    set n | n in nodes :: n.value.memory
  }

  ghost function BankOf(e: Entry): Bank
    reads e.memory
  {
    Bank(e.region, if e.memory == null then [] else e.memory[..])
  }

  ghost function BanksIn(nodes: seq<Node<Entry>>): (banks: seq<Bank>)
    reads Arrays(nodes)
    ensures |banks| == |nodes|
    ensures forall i {:trigger banks[i]} :: 0 <= i < |nodes| ==> banks[i] == BankOf(nodes[i].value)
  {
    if nodes == [] then []
    else
      assert forall n :: n in nodes[..|nodes| - 1] ==> n in nodes;
      assert nodes[|nodes| - 1] in nodes;
      BanksIn(nodes[..|nodes| - 1]) + [BankOf(nodes[|nodes| - 1].value)]
  }

  /** The bank a new region starts with: zeros, if it has memory. */
  function ZeroBank(r: Region): Bank {
    Bank(r, if r.kind == MEMORY_USABLE then seq(r.size, _ => 0) else [])
  }

  lemma RegionsInAppend(nodes: seq<Node<Entry>>, n: Node<Entry>)
    ensures RegionsIn(nodes + [n]) == RegionsIn(nodes) + [n.value.region]
  {
  }

  lemma BanksAppend(nodes: seq<Node<Entry>>, n: Node<Entry>)
    ensures BanksIn(nodes + [n]) == BanksIn(nodes) + [BankOf(n.value)]
  {
    assert (nodes + [n])[..|nodes|] == nodes;
  }

  lemma OwnedAppend(nodes: seq<Node<Entry>>, n: Node<Entry>)
    requires Owned(nodes)
    requires n.value.memory != null ==> n.value.memory !in Arrays(nodes)
    requires Backing(n.value)
    ensures Owned(nodes + [n])
  {
    var more := nodes + [n];
    assert forall i :: 0 <= i < |nodes| ==> nodes[i] in nodes && nodes[i].value.memory in Arrays(nodes);
    forall i, j | 0 <= i < |more| && 0 <= j < |more| && i != j
      ensures Unshared(more, i, j)
    {
      assert i < |nodes| && j < |nodes| ==> Unshared(nodes, i, j);
    }
  }

  /** What the free function unmaps when it is given these entries in turn: the memory of the usable ones. */
  function Unmapped(entries: seq<Entry>): seq<array?<u8>> {
    if entries == [] then []
    else Unmapped(entries[..|entries| - 1])
         + if entries[|entries| - 1].region.kind == MEMORY_USABLE then [entries[|entries| - 1].memory] else []
  }

  /** Giving up the entries of a memory unmaps the memory of every usable region, each once, and nothing else. */
  lemma {:induction false} EveryMappingIsUnmappedOnce(nodes: seq<Node<Entry>>)
    requires Owned(nodes)
    ensures |Unmapped(ValuesOf(nodes))| == CountUsable(RegionsIn(nodes))
    ensures NoDuplicates(Unmapped(ValuesOf(nodes)))
    ensures (set m | m in Unmapped(ValuesOf(nodes))) == MappedIn(nodes)
    decreases |nodes|
  {
    if nodes == [] {
    } else {
      var k := |nodes| - 1;
      var less, e := nodes[..k], nodes[k].value;
      assert ValuesOf(nodes)[..k] == ValuesOf(less) && RegionsIn(nodes)[..k] == RegionsIn(less);
      OwnedLess(nodes, k);
      EveryMappingIsUnmappedOnce(less);
      var rest := Unmapped(ValuesOf(less));
      if e.region.kind == MEMORY_USABLE {
        assert MappedIn(nodes) == MappedIn(less) + {e.memory};
        LastIsNew(nodes);
        assert e.memory !in (set m | m in rest);
        OneMoreIsNew(rest, e.memory);
      } else {
        assert MappedIn(nodes) == MappedIn(less) && rest + [] == rest;
      }
    }
  }

  lemma OneMoreIsNew<T>(s: seq<T>, m: T)
    requires NoDuplicates(s) && m !in s
    ensures NoDuplicates(s + [m]) && (set x | x in s + [m]) == (set x | x in s) + {m}
  {
    forall i, j | 0 <= i < |s + [m]| && 0 <= j < |s + [m]| && i != j
      ensures Differ(s + [m], i, j)
    {
      assert i < |s| ==> s[i] in s;
      assert j < |s| ==> s[j] in s;
      assert i < |s| && j < |s| ==> Differ(s, i, j);
    }
  }

  /** The memory of the usable regions. */
  ghost function MappedIn(nodes: seq<Node<Entry>>): set<array?<u8>> {
    set i | 0 <= i < |nodes| && nodes[i].value.region.kind == MEMORY_USABLE :: nodes[i].value.memory
  }

  lemma OwnedLess(nodes: seq<Node<Entry>>, k: nat)
    requires Owned(nodes) && k <= |nodes|
    ensures Owned(nodes[..k])
  {
    var less := nodes[..k];
    forall i, j | 0 <= i < k && 0 <= j < k && i != j
      ensures Unshared(less, i, j)
    {
      assert Unshared(nodes, i, j);
    }
  }

  lemma LastIsNew(nodes: seq<Node<Entry>>)
    requires Owned(nodes) && nodes != [] && nodes[|nodes| - 1].value.region.kind == MEMORY_USABLE
    ensures nodes[|nodes| - 1].value.memory !in MappedIn(nodes[..|nodes| - 1])
  {
    var k := |nodes| - 1;
    assert Backing(nodes[k].value);
    forall i | 0 <= i < k
      ensures nodes[..k][i].value.memory != nodes[k].value.memory
    {
      assert Unshared(nodes, k, i);
    }
  }

  /** A 64-bit count as the signed result the source returns. */
  function AsS64(n: nat): int {
    if n < 0x8000_0000_0000_0000 then n else n - U64_SPAN
  }

  datatype Pointer = Pointer(memory: array<u8>, offset: nat)

  /** The copy loop of `memory_write`. */
  method CopyIn(memory: array<u8>, base: nat, limit: nat, data: seq<u8>) returns (written: nat)
    requires base + limit <= memory.Length
    modifies memory
    ensures written == Min(|data|, limit)
    ensures memory[..] == Splice(old(memory[..]), base, data[..written])
  {
    written := 0;
    while written < limit && written < |data|
      invariant written <= limit && written <= |data|
      invariant forall k :: 0 <= k < written ==> memory[base + k] == data[k]
      invariant forall k :: 0 <= k < memory.Length && !(base <= k < base + written) ==>
                  memory[k] == old(memory[k])
    {
      memory[base + written] := data[written];
      written := written + 1;
    }
    SpliceByBytes(old(memory[..]), base, data[..written], memory[..]);
  }

  /** The copy loop of `memory_read`. */
  method CopyOut(memory: array<u8>, base: nat, limit: nat, out: array<u8>, size: nat) returns (n: nat)
    requires base + limit <= memory.Length && size <= out.Length && out != memory
    modifies out
    ensures n == Min(size, limit)
    ensures forall k :: 0 <= k < n ==> out[k] == memory[base + k]
    ensures forall k :: n <= k < out.Length ==> out[k] == old(out[k])
  {
    n := 0;
    while n < limit && n < size
      invariant n <= limit && n <= size
      invariant forall k :: 0 <= k < n ==> out[k] == memory[base + k]
      invariant forall k :: n <= k < out.Length ==> out[k] == old(out[k])
    {
      out[n] := memory[base + n];
      n := n + 1;
    }
  }

  class Memory {
    const entries: List<Entry>
    var nextSlot: nat

    ghost predicate Valid()
      reads this, entries, entries.spine
    {
      && entries.freesValues && entries.Valid() && Owned(entries.spine)
      && Separated(RegionsIn(entries.spine)) && Slotted(Spaces())
    }

    /** The address space, without the contents. */
    ghost function Spaces(): Space
      reads this, entries
    {
      Space(RegionsIn(entries.spine), nextSlot)
    }

    /** The regions with their contents. */
    ghost function Banks(): seq<Bank>
      reads this, entries, Arrays(entries.spine)
    {
      BanksIn(entries.spine)
    }

    constructor ()
      ensures Valid() && fresh(entries) && fresh(entries.made)
      ensures Spaces() == EMPTY && Banks() == []
    {
      entries := new List(true);
      nextSlot := 0;
    }

    lemma BanksWellFormed()
      requires Valid()
      ensures RegionsOf(Banks()) == RegionsIn(entries.spine)
      ensures WellFormed(Banks())
    {
      assert RegionsOf(Banks()) == RegionsIn(entries.spine);
    }

    method CheckAddrAvailable(start: u64, size: u64) returns (available: bool)
      requires Valid()
      ensures available <==> Available(RegionsIn(entries.spine), start, size)
    {
      var current := entries.head;
      ghost var i := 0;
      while current != null
        invariant i <= |entries.spine| && current == NodeAt(entries.spine, i)
        invariant forall j :: 0 <= j < i ==> !Clashes(RegionsIn(entries.spine)[j], start, size)
        decreases |entries.spine| - i
      {
        assert LinkedAt(entries.spine, i);
        var region := current.value.region;
        if (region.start <= start && Add64(region.start, region.size) > start)
           || (Add64(start, size) >= region.start && start < region.start)
        {
          assert Clashes(RegionsIn(entries.spine)[i], start, size);
          return false;
        }
        current := current.next;
        i := i + 1;
      }
      return true;
    }

    /** What the entry that holds `a` says about the bytes at and after `a`. */
    ghost predicate Located(found: Option<Entry>, a: u64)
      reads this, entries, entries.spine, Arrays(entries.spine)
    {
      && WellFormed(Banks()) && RegionsOf(Banks()) == RegionsIn(entries.spine)
      && (found.Some? ==> found.value.region.kind in {MEMORY_USABLE, MEMORY_MMIO})
      && (Backed(Banks(), a) <==> found.Some? && found.value.region.kind == MEMORY_USABLE)
      && (Backed(Banks(), a) ==>
            && found.value.memory in Arrays(entries.spine) && Backing(found.value)
            && Seen(Banks(), found.value.region, found.value.memory[..], a))
    }

    lemma EntryIsLocated(found: Option<Entry>, a: u64)
      requires Valid()
      requires var i := Find(RegionsIn(entries.spine), a);
               found == if i < |entries.spine| then Some(entries.spine[i].value) else None
      ensures Located(found, a)
    {
      BanksWellFormed();
      var i := Find(RegionsIn(entries.spine), a);
      if i < |entries.spine| {
        assert entries.spine[i] in entries.spine && Banks()[i] == BankOf(found.value);
        assert SlottedAt(RegionsIn(entries.spine), i);
        if found.value.region.kind == MEMORY_USABLE {
          BankIsSeen(Banks(), a);
        }
      }
    }

    method FindEntry(a: u64) returns (found: Option<Entry>)
      requires Valid()
      ensures var i := Find(RegionsIn(entries.spine), a);
              found == if i < |entries.spine| then Some(entries.spine[i].value) else None
      ensures Located(found, a)
    {
      var current := entries.head;
      ghost var i := 0;
      while current != null
        invariant i <= |entries.spine| && current == NodeAt(entries.spine, i)
        invariant forall j :: 0 <= j < i ==> !Holds(RegionsIn(entries.spine)[j], a)
        decreases |entries.spine| - i
      {
        assert LinkedAt(entries.spine, i);
        var region := current.value.region;
        if region.start <= a && Add64(region.start, region.size) > a {
          FindIsFirst(RegionsIn(entries.spine), a, i);
          EntryIsLocated(Some(current.value), a);
          return Some(current.value);
        }
        current := current.next;
        i := i + 1;
      }
      FindIsFirst(RegionsIn(entries.spine), a, i);
      EntryIsLocated(None, a);
      return None;
    }

    /** Usable memory and framebuffers alike: zeroed memory and the next slot, if the host agrees. */
    method AllocateUsable(start: u64, size: u64, hostOk: bool) returns (entry: Option<Entry>)
      modifies this`nextSlot
      ensures entry.Some? <==> hostOk
      ensures hostOk ==>
                && entry.value.region == Region(start, size, old(nextSlot), MEMORY_USABLE)
                && entry.value.memory != null && fresh(entry.value.memory)
                && Backing(entry.value) && BankOf(entry.value) == ZeroBank(entry.value.region)
                && nextSlot == NextSlot(old(nextSlot))
      ensures !hostOk ==> nextSlot == old(nextSlot)
    {
      if !hostOk {
        return None;
      }
      var memory := new u8[size](_ => 0);
      entry := Some(Entry(memory, Region(start, size, nextSlot, MEMORY_USABLE)));
      nextSlot := NextSlot(nextSlot);
      assert memory[..] == ZeroBank(entry.value.region).bytes;
    }

    method AllocateMmio(start: u64, size: u64) returns (entry: Entry)
      ensures entry == Entry(null, Region(start, size, 0, MEMORY_MMIO))
    {
      return Entry(null, Region(start, size, 0, MEMORY_MMIO));
    }

    /** Adding the entry for a granted request makes the address space the one after the request. */
    lemma Grown(nodes: seq<Node<Entry>>, s: Space, q: Request)
      requires Owned(nodes) && RegionsIn(nodes) == s.regions && Separated(s.regions) && Slotted(s)
      requires entries.freesValues && entries.Valid()
      requires entries.tail != null && entries.spine == nodes + [entries.tail]
      requires entries.tail.value.memory != null ==> entries.tail.value.memory !in Arrays(nodes)
      requires Backing(entries.tail.value) && entries.tail.value.region == NewRegion(s, q)
      requires Grants(s, q) && nextSlot == AfterAlloc(s, q).nextSlot
      ensures Valid() && Spaces() == AfterAlloc(s, q)
    {
      AllocKeepsSeparated(s, q);
      AllocKeepsSlotted(s, q);
      RegionsInAppend(nodes, entries.tail);
      OwnedAppend(nodes, entries.tail);
    }

    /**
     `memory_alloc`; `hostOk` is the answer of the host to a request for memory.  No region's memory
     is in the frame, so the banks there were stay as they are and (`BanksAppend`) the new one is
     added at the end.
     */
    method Alloc(start: u64, size: u64, kind: nat, hostOk: bool) returns (ok: bool)
      requires Valid()
      modifies this, entries, entries.made
      ensures Valid()
      ensures var q := Request(start, size, kind, hostOk);
              ok == Grants(old(Spaces()), q) && Spaces() == AfterAlloc(old(Spaces()), q)
      ensures !ok ==> entries.spine == old(entries.spine)
      ensures ok ==>
                && entries.tail != null && fresh(entries.tail)
                && entries.spine == old(entries.spine) + [entries.tail]
                && (entries.tail.value.memory != null ==> fresh(entries.tail.value.memory))
                && BankOf(entries.tail.value)
                   == ZeroBank(NewRegion(old(Spaces()), Request(start, size, kind, hostOk)))
      ensures old(entries.made) <= entries.made && fresh(entries.made - old(entries.made))
    {
      ghost var s, q := Spaces(), Request(start, size, kind, hostOk);
      ghost var arrays := Arrays(entries.spine);
      var available := CheckAddrAvailable(start, size);
      if !available {
        assert !Grants(s, q);
        return false;
      }
      var entry := None;
      if kind == MEMORY_FRAMEBUFFER || kind == MEMORY_USABLE {
        entry := AllocateUsable(start, size, hostOk);
      } else if kind == MEMORY_MMIO {
        var mmio := AllocateMmio(start, size);
        entry := Some(mmio);
      }
      if entry == None {
        assert !Grants(s, q) && Spaces() == s;
        return false;
      }
      assert entry.value.memory != null ==> entry.value.memory !in arrays;
      entries.Add(entry.value);
      Grown(old(entries.spine), s, q);
      return true;
    }

    /** What the banks are once the part of `data` that fits was stored where `dest` is, and nowhere else. */
    lemma Stored(before: seq<Bank>, dest: u64, data: seq<u8>, stored: seq<u8>)
      requires Valid() && WellFormed(before) && RegionsOf(before) == RegionsIn(entries.spine)
      requires Backed(before, dest) && stored == data[..Min(|data|, Room(before, dest))]
      requires forall j :: 0 <= j < |before| ==>
                 BankOf(entries.spine[j].value) == Store(before, dest, stored)[j]
      ensures Written(before, Banks(), dest, data)
    {
      StoreIsOverlay(before, dest, stored);
      StoreKeepsRegions(before, dest, stored);
      assert Banks() == Store(before, dest, stored);
    }

    /**
     Copies `data` to guest memory up to the end of the region that holds `dest`, and returns how
     much that was; -1 if no usable region holds it.
     */
    method Write(dest: u64, data: seq<u8>) returns (r: int)
      requires Valid()
      modifies Arrays(entries.spine)
      ensures Valid() && Written(old(Banks()), Banks(), dest, data)
      ensures !Backed(old(Banks()), dest) ==> r == -1
      ensures Backed(old(Banks()), dest) ==>
                var n := Min(|data|, Room(old(Banks()), dest));
                if n < 0x8000_0000_0000_0000 then r == n else r < 0 && r + 0x1_0000_0000_0000_0000 == n
    {
      ghost var before := Banks();
      ghost var i := Find(RegionsIn(entries.spine), dest);
      var found := FindEntry(dest);
      if found == None || found.value.region.kind != MEMORY_USABLE {
        return -1;
      }
      var entry := found.value;
      var base := dest - entry.region.start;
      var written := CopyIn(entry.memory, base, entry.region.size - base, data);
      ghost var stored := data[..written];
      forall j | 0 <= j < |before|
        ensures BankOf(entries.spine[j].value) == Store(before, dest, stored)[j]
      {
        assert j != i ==> Unshared(entries.spine, i, j);
      }
      Stored(before, dest, data, stored);
      return AsS64(written);
    }

    /**
     Copies guest memory from `src` up to the end of its region into `out`; -1 if no usable region
     holds it.
     */
    method Read(src: u64, out: array<u8>, size: nat) returns (r: int)
      requires Valid() && size <= out.Length && out !in Arrays(entries.spine)
      modifies out
      ensures WellFormed(old(Banks()))
      ensures !Backed(old(Banks()), src) ==> r == -1 && out[..] == old(out[..])
      ensures Backed(old(Banks()), src) ==>
                var n := Min(size, Room(old(Banks()), src));
                && (if n < 0x8000_0000_0000_0000 then r == n else r < 0 && r + 0x1_0000_0000_0000_0000 == n)
                && src + n < U64_SPAN
                && (forall a: u64 :: src <= a < src + n ==> Peek(old(Banks()), a) == Some(out[a - src]))
                && (forall k :: n <= k < out.Length ==> out[k] == old(out[k]))
    {
      var found := FindEntry(src);
      if found == None
         || (found.value.region.kind != MEMORY_USABLE && found.value.region.kind != MEMORY_FRAMEBUFFER)
      {
        return -1;
      }
      var entry := found.value;
      var base := src - entry.region.start;
      ghost var banks, content := Banks(), entry.memory[..];
      var n := CopyOut(entry.memory, base, entry.region.size - base, out, size);
      assert entry.memory[..] == content;
      SeenBytes(banks, entry.region, content, src, out[..], n);
      return AsS64(n);
    }

    /** The place of an address: `offset` bytes into the memory of its region; none if it is not usable. */
    method GetPtr(a: u64) returns (p: Option<Pointer>)
      requires Valid()
      ensures WellFormed(Banks()) && (p.Some? <==> Backed(Banks(), a))
      ensures p.Some? ==>
                && p.value.memory in Arrays(entries.spine)
                && p.value.offset + Room(Banks(), a) == p.value.memory.Length
                && a + Room(Banks(), a) < U64_SPAN
                && forall c: u64 :: a <= c < a + Room(Banks(), a) ==>
                     Peek(Banks(), c) == Some(p.value.memory[p.value.offset + (c - a)])
    {
      var found := FindEntry(a);
      if found == None || found.value.region.kind != MEMORY_USABLE {
        return None;
      }
      var entry := found.value;
      var offset := a - entry.region.start;
      SeenFrom(Banks(), entry.region, entry.memory[..], a);
      return Some(Pointer(entry.memory, offset));
    }

    /** `memory_destroy`: every entry still listed goes to the free function once, and its node is freed once. */
    method Destroy()
      requires Valid()
      modifies entries, entries.made
      ensures entries.spine == []
      ensures entries.released == old(entries.released) + ValuesOf(old(entries.spine))
      ensures entries.freed == old(entries.freed) + old(entries.spine)
      ensures var unmapped := Unmapped(ValuesOf(old(entries.spine)));
              NoDuplicates(unmapped) && (set m | m in unmapped) == MappedIn(old(entries.spine))
    {
      EveryMappingIsUnmappedOnce(entries.spine);
      entries.Free();
    }

    /** The e820 table: the regions in list order, as many as an `unsigned int` can count. */
    method E820TableGet() returns (table: array<E820Entry>)
      requires Valid()
      ensures fresh(table) && table.Length == Low32(|entries.spine|)
      ensures forall i :: 0 <= i < table.Length ==> table[i] == E820Of(RegionsIn(entries.spine)[i])
      ensures forall i :: 0 <= i < table.Length ==>
                var r := entries.spine[i].value.region;
                table[i].base == r.start && table[i].size == r.size && table[i].kind == if r.kind == 1 then 1 else 2
    {
      var length := entries.Size();
      Low32AtMost(|entries.spine|);
      table := new E820Entry[length](_ => E820Entry(0, 0, E820_RESERVED));
      var current := entries.head;
      var i := 0;
      while current != null && i < length
        invariant i <= length && current == NodeAt(entries.spine, i)
        invariant forall j :: 0 <= j < i ==> table[j] == E820Of(RegionsIn(entries.spine)[j])
      {
        assert LinkedAt(entries.spine, i);
        var region := current.value.region;
        table[i] := E820Entry(region.start, region.size,
                              if region.kind == MEMORY_USABLE then E820_USABLE else E820_RESERVED);
        current := current.next;
        i := i + 1;
      }
    }
  }

  /** The addresses a region holds: its range, if the end fits into 64 bits. */
  lemma HeldExactly(r: Region, a: u64)
    ensures Holds(r, a) <==> r.start <= a < r.start + r.size < 0x1_0000_0000_0000_0000
  {
  }

  /** What an allocation makes of the flat memory: zeros at the addresses asked for, unless they are for I/O. */
  ghost predicate Zeroed(before: seq<Bank>, after: seq<Bank>, start: u64, size: u64, kind: nat) {
    && WellFormed(before) && WellFormed(after)
    && forall a: u64 ::
         Peek(after, a) == if kind != 2 && start <= a < start + size < 0x1_0000_0000_0000_0000 then Some(0)
                           else Peek(before, a)
  }

  lemma GrantSeenFlat(before: seq<Bank>, s: Space, q: Request)
    requires Grants(s, q) && WellFormed(before) && WellFormed(before + [ZeroBank(NewRegion(s, q))])
    ensures Zeroed(before, before + [ZeroBank(NewRegion(s, q))], q.start, q.size, q.kind)
  {
    var r := NewRegion(s, q);
    var after := before + [ZeroBank(r)];
    forall a: u64
      ensures Peek(after, a) == if q.kind != 2 && q.start <= a < q.start + q.size < 0x1_0000_0000_0000_0000
                                then Some(0) else Peek(before, a)
    {
      NewBankIsZeroes(before, ZeroBank(r), a);
      HeldExactly(r, a);
    }
  }

  /**
   Seen flat, a granted allocation of memory or a framebuffer adds zeros at the addresses asked for,
   if their end fits into 64 bits, and no allocation changes any other byte.
   */
  method AllocSeenFlat(m: Memory, start: u64, size: u64, kind: nat, hostOk: bool) returns (ok: bool)
    requires m.Valid()
    modifies m, m.entries, m.entries.made
    ensures m.Valid() && ok == Grants(old(m.Spaces()), Request(start, size, kind, hostOk))
    ensures if ok then Zeroed(old(m.Banks()), m.Banks(), start, size, kind) else m.Banks() == old(m.Banks())
  {
    ghost var before, nodes := m.Banks(), m.entries.spine;
    ghost var s, q := m.Spaces(), Request(start, size, kind, hostOk);
    m.BanksWellFormed();
    ok := m.Alloc(start, size, kind, hostOk);
    assert BanksIn(nodes) == before;
    if ok {
      BanksAppend(nodes, m.entries.tail);
      m.BanksWellFormed();
      GrantSeenFlat(before, s, q);
    }
  }
}
