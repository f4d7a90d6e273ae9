/**
 Guest memory as one map from guest physical address to byte, and the list of regions with their
 contents that memory.c keeps instead.
 */
module FlatMemory {
  import opened Bytes
  import opened AddressSpace

  /** A region with the bytes behind it; regions that are not usable have none. */
  datatype Bank = Bank(region: Region, bytes: seq<u8>)

  function RegionsOf(banks: seq<Bank>): (regions: seq<Region>)
    ensures |regions| == |banks|
  {
    seq(|banks|, i requires 0 <= i < |banks| => banks[i].region)
  }

  ghost predicate WellFormed(banks: seq<Bank>) {
    && Separated(RegionsOf(banks))
    && forall i :: 0 <= i < |banks| && banks[i].region.kind == MEMORY_USABLE ==>
         |banks[i].bytes| == banks[i].region.size
  }

  /** The first region holding the address is a usable one. */
  predicate Backed(banks: seq<Bank>, a: u64) {
    var i := Find(RegionsOf(banks), a);
    i < |banks| && banks[i].region.kind == MEMORY_USABLE
  }

  /** The flat memory: the byte at an address, where there is one. */
  function Peek(banks: seq<Bank>, a: u64): Option<u8>
    requires WellFormed(banks)
  {
    if Backed(banks, a) then
      var b := banks[Find(RegionsOf(banks), a)];
      Some(b.bytes[a - b.region.start])
    else None
  }

  /** Bytes from `a` to the end of its region. */
  function Room(banks: seq<Bank>, a: u64): (n: nat)
    requires Backed(banks, a)
    ensures n > 0
  {
    var r := banks[Find(RegionsOf(banks), a)].region;
    r.size - (a - r.start)
  }

  /** `after` is the flat memory `before` with `data` written over it at `dest`. */
  ghost predicate Overlaid(before: seq<Bank>, after: seq<Bank>, dest: nat, data: seq<u8>) {
    && WellFormed(before) && WellFormed(after)
    && forall a: u64 :: Peek(after, a) ==
         if dest <= a < dest + |data| then Some(data[a - dest]) else Peek(before, a)
  }

  /** Two writes, the second where the first one ended, are one write. */
  lemma OverlaidTwice(before: seq<Bank>, middle: seq<Bank>, after: seq<Bank>,
                      dest: nat, first: seq<u8>, second: seq<u8>)
    requires Overlaid(before, middle, dest, first) && Overlaid(middle, after, dest + |first|, second)
    ensures Overlaid(before, after, dest, first + second)
  {
  }

  function Splice(bytes: seq<u8>, at: nat, data: seq<u8>): (r: seq<u8>)
    requires at + |data| <= |bytes|
    ensures |r| == |bytes|
  {
    bytes[..at] + data + bytes[at + |data|..]
  }

  lemma SpliceAt(bytes: seq<u8>, at: nat, data: seq<u8>, k: nat)
    requires at + |data| <= |bytes| && k < |bytes|
    ensures Splice(bytes, at, data)[k] == if at <= k < at + |data| then data[k - at] else bytes[k]
  {
  }

  lemma SpliceByBytes(bytes: seq<u8>, at: nat, data: seq<u8>, now: seq<u8>)
    requires at + |data| <= |bytes| == |now|
    requires forall k :: 0 <= k < |data| ==> now[at + k] == data[k]
    requires forall k :: 0 <= k < |now| && !(at <= k < at + |data|) ==> now[k] == bytes[k]
    ensures now == Splice(bytes, at, data)
  {
    forall k | 0 <= k < |now|
      ensures now[k] == Splice(bytes, at, data)[k]
    {
      SpliceAt(bytes, at, data, k);
      assert at <= k < at + |data| ==> now[at + (k - at)] == data[k - at];
    }
  }

  /** The banks after `data`, which fits, is stored where address `dest` is. */
  function Store(banks: seq<Bank>, dest: u64, data: seq<u8>): (after: seq<Bank>)
    requires WellFormed(banks) && Backed(banks, dest) && |data| <= Room(banks, dest)
    ensures |after| == |banks|
  {
    var i := Find(RegionsOf(banks), dest);
    var b := banks[i];
    banks[i := Bank(b.region, Splice(b.bytes, dest - b.region.start, data))]
  }

  /** Up to the end of its region, an address is followed by addresses of the same bank. */
  lemma SameBank(banks: seq<Bank>, a: u64, k: nat)
    requires WellFormed(banks) && Backed(banks, a) && k < Room(banks, a)
    ensures a + k < U64_SPAN
    ensures Find(RegionsOf(banks), a + k) == Find(RegionsOf(banks), a)
    ensures var b := banks[Find(RegionsOf(banks), a)];
            Peek(banks, a + k) == Some(b.bytes[a - b.region.start + k])
  {
    var regions := RegionsOf(banks);
    var i := Find(regions, a);
    assert regions[i] == banks[i].region;
    WrappedHoldsNothing(regions[i], a);
    assert Holds(regions[i], a + k);
    FoundIfHeld(regions, i, a + k);
  }

  /** The bytes from `a` to the end of its region, seen through the flat memory. */
  lemma RoomIsSeen(banks: seq<Bank>, a: u64)
    requires WellFormed(banks) && Backed(banks, a)
    ensures a + Room(banks, a) < U64_SPAN
    ensures var b := banks[Find(RegionsOf(banks), a)];
            forall c: u64 :: a <= c < a + Room(banks, a) ==>
              0 <= c - b.region.start < |b.bytes| && Peek(banks, c) == Some(b.bytes[c - b.region.start])
  {
    var b := banks[Find(RegionsOf(banks), a)];
    WrappedHoldsNothing(b.region, a);
    forall c: u64 | a <= c < a + Room(banks, a)
      ensures 0 <= c - b.region.start < |b.bytes| && Peek(banks, c) == Some(b.bytes[c - b.region.start])
    {
      SameBank(banks, a, c - a);
    }
  }

  /** A region with these bytes behind it holds `a`, and the flat memory shows them from there to its end. */
  ghost predicate Seen(banks: seq<Bank>, r: Region, bytes: seq<u8>, a: u64) {
    && WellFormed(banks) && Backed(banks, a)
    && r.start <= a && |bytes| == r.size && Room(banks, a) == r.size - (a - r.start)
    && a + Room(banks, a) < U64_SPAN
    && forall c: u64 :: a <= c < a + Room(banks, a) ==> Peek(banks, c) == Some(bytes[c - r.start])
  }

  lemma BankIsSeen(banks: seq<Bank>, a: u64)
    requires WellFormed(banks) && Backed(banks, a)
    ensures var b := banks[Find(RegionsOf(banks), a)];
            Seen(banks, b.region, b.bytes, a)
  {
    RoomIsSeen(banks, a);
  }

  /** The bytes copied out from there are the ones the flat memory shows. */
  lemma SeenBytes(banks: seq<Bank>, r: Region, bytes: seq<u8>, a: u64, out: seq<u8>, n: nat)
    requires Seen(banks, r, bytes, a) && n <= Room(banks, a) && n <= |out|
    requires forall k :: 0 <= k < n ==> out[k] == bytes[a - r.start + k]
    ensures a + n < U64_SPAN && forall c: u64 :: a <= c < a + n ==> Peek(banks, c) == Some(out[c - a])
  {
    forall c: u64 | a <= c < a + n
      ensures Peek(banks, c) == Some(out[c - a])
    {
      assert out[c - a] == bytes[a - r.start + (c - a)];
    }
  }

  /** The same, counted from the place of `a` in the region's bytes. */
  lemma SeenFrom(banks: seq<Bank>, r: Region, bytes: seq<u8>, a: u64)
    requires Seen(banks, r, bytes, a)
    ensures forall c: u64 :: a <= c < a + Room(banks, a) ==> Peek(banks, c) == Some(bytes[a - r.start + (c - a)])
  {
  }

  /** Inside a usable region whose end fits into 64 bits: there is a byte, and room up to that end. */
  lemma RoomIsToTheEnd(banks: seq<Bank>, i: nat, a: u64)
    requires WellFormed(banks) && i < |banks| && banks[i].region.kind == 1
    requires var r := banks[i].region; r.start <= a < r.start + r.size < 0x1_0000_0000_0000_0000
    ensures Backed(banks, a) && a + Room(banks, a) == banks[i].region.start + banks[i].region.size
    ensures Peek(banks, a) == Some(banks[i].bytes[a - banks[i].region.start])
  {
    FoundIfHeld(RegionsOf(banks), i, a);
  }

  /** An address is backed by nothing else. */
  lemma BackedExactly(banks: seq<Bank>, a: u64)
    requires WellFormed(banks)
    ensures Backed(banks, a) <==>
            exists i :: && 0 <= i < |banks| && banks[i].region.kind == 1
                        && banks[i].region.start <= a
                        && a < banks[i].region.start + banks[i].region.size < 0x1_0000_0000_0000_0000
  {
    forall i | 0 <= i < |banks| && banks[i].region.kind == 1 && banks[i].region.start <= a
               && a < banks[i].region.start + banks[i].region.size < 0x1_0000_0000_0000_0000
      ensures Backed(banks, a)
    {
      RoomIsToTheEnd(banks, i, a);
    }
    if Backed(banks, a) {
      var i := Find(RegionsOf(banks), a);
      assert RegionsOf(banks)[i] == banks[i].region;
      WrappedHoldsNothing(banks[i].region, a);
    }
  }

  lemma StoreKeepsRegions(banks: seq<Bank>, dest: u64, data: seq<u8>)
    requires WellFormed(banks) && Backed(banks, dest) && |data| <= Room(banks, dest)
    ensures RegionsOf(Store(banks, dest, data)) == RegionsOf(banks)
    ensures WellFormed(Store(banks, dest, data))
  {
    assert RegionsOf(Store(banks, dest, data)) == RegionsOf(banks);
  }

  lemma PeekAfterStore(banks: seq<Bank>, dest: u64, data: seq<u8>, a: u64)
    requires WellFormed(banks) && Backed(banks, dest) && |data| <= Room(banks, dest)
    requires WellFormed(Store(banks, dest, data))
    ensures Peek(Store(banks, dest, data), a) ==
            if dest <= a < dest + |data| then Some(data[a - dest]) else Peek(banks, a)
  {
    StoreKeepsRegions(banks, dest, data);
    var regions := RegionsOf(banks);
    var i := Find(regions, dest);
    assert regions[i] == banks[i].region;
    if dest <= a < dest + |data| {
      SameBank(banks, dest, a - dest);
    }
    if Find(regions, a) == i && Backed(banks, a) {
      SpliceAt(banks[i].bytes, dest - regions[i].start, data, a - regions[i].start);
    }
  }

  /** Storing in one bank writes exactly the addressed bytes of the flat memory, and no others. */
  lemma StoreIsOverlay(banks: seq<Bank>, dest: u64, data: seq<u8>)
    requires WellFormed(banks) && Backed(banks, dest) && |data| <= Room(banks, dest)
    ensures Overlaid(banks, Store(banks, dest, data), dest, data)
  {
    StoreKeepsRegions(banks, dest, data);
    forall a: u64
      ensures Peek(Store(banks, dest, data), a) ==
              if dest <= a < dest + |data| then Some(data[a - dest]) else Peek(banks, a)
    {
      PeekAfterStore(banks, dest, data, a);
    }
  }

  /** A new bank of zeros adds its addresses, all zero, and changes nothing else. */
  lemma NewBankIsZeroes(banks: seq<Bank>, b: Bank, a: u64)
    requires WellFormed(banks) && WellFormed(banks + [b])
    requires b.region.kind == MEMORY_USABLE ==> forall k :: 0 <= k < |b.bytes| ==> b.bytes[k] == 0
    ensures Peek(banks + [b], a) ==
            if b.region.kind == MEMORY_USABLE && Holds(b.region, a) then Some(0) else Peek(banks, a)
  {
    var regions, more := RegionsOf(banks), RegionsOf(banks + [b]);
    assert forall i :: 0 <= i < |regions| ==> regions[i] == banks[i].region == more[i];
    assert more[|banks|] == b.region;
    var i := Find(regions, a);
    WrappedHoldsNothing(b.region, a);
    if i < |banks| {
      FoundIfHeld(more, i, a);
      if Holds(b.region, a) {
        HolderIsUnique(more, i, |banks|, a);
      }
    } else if Holds(b.region, a) {
      FoundIfHeld(more, |banks|, a);
    } else {
      FindIsFirst(regions, a, |regions|);
      FindIsFirst(more, a, |more|);
    }
  }

  /** Memories with the same regions back the same addresses, with the same room. */
  lemma SameRegionsSameRoom(banks: seq<Bank>, others: seq<Bank>, a: u64)
    requires RegionsOf(banks) == RegionsOf(others)
    ensures Backed(banks, a) <==> Backed(others, a)
    ensures Backed(banks, a) ==> Room(banks, a) == Room(others, a)
  {
    var regions := RegionsOf(banks);
    assert forall i :: 0 <= i < |banks| ==> banks[i].region == regions[i] == others[i].region;
  }

  /** Going up `k` bytes inside a region leaves `k` bytes less room. */
  lemma RoomShrinks(banks: seq<Bank>, a: u64, k: nat)
    requires WellFormed(banks) && Backed(banks, a) && k < Room(banks, a)
    ensures a + k < U64_SPAN && Backed(banks, a + k) && Room(banks, a + k) == Room(banks, a) - k
  {
    SameBank(banks, a, k);
  }

  /**
   What one `memory_write` does: the regions stay, and as many bytes as there is room for are laid
   over the flat memory; nothing happens at an address that is not backed.
   */
  ghost predicate Written(before: seq<Bank>, after: seq<Bank>, dest: u64, data: seq<u8>) {
    && WellFormed(before) && WellFormed(after) && RegionsOf(before) == RegionsOf(after)
    && if Backed(before, dest)
       then Overlaid(before, after, dest, data[..Min(|data|, Room(before, dest))])
       else before == after
  }

  // ------------------------------------------------------------------ loading a file in chunks

  /** The bytes of the chunks from `i` up to `n`. */
  function Cat(chunks: seq<seq<u8>>, i: nat, n: nat): seq<u8>
    requires i <= n <= |chunks|
    decreases n - i
  {
    if i == n then [] else chunks[i] + Cat(chunks, i + 1, n)
  }

  /** The memories from `states[i]` to `states[n]` arise by writing the chunks between in turn, from `dest` on. */
  ghost predicate Loads(states: seq<seq<Bank>>, dest: nat, chunks: seq<seq<u8>>, i: nat, n: nat)
    requires i <= n <= |chunks| && n < |states|
    decreases n - i
  {
    && WellFormed(states[i])
    && (i < n ==>
          && dest < U64_SPAN
          && Written(states[i], states[i + 1], dest, chunks[i])
          && Loads(states, dest + |chunks[i]|, chunks, i + 1, n))
  }

  /** What is left of `room` behind `n` bytes. */
  function Less(room: nat, n: nat): nat {
    if n < room then room - n else 0
  }

  /** Written one after the other into a region with that much room, the chunks all start inside it. */
  predicate StartInside(chunks: seq<seq<u8>>, i: nat, n: nat, room: nat)
    requires i <= n <= |chunks|
    decreases n - i
  {
    i == n || (room > 0 && StartInside(chunks, i + 1, n, Less(room, |chunks[i]|)))
  }

  /** Behind a first chunk that leaves room, the address has the rest of the room. */
  lemma RoomBehind(before: seq<Bank>, after: seq<Bank>, dest: u64, first: seq<u8>)
    requires Written(before, after, dest, first) && Backed(before, dest) && |first| < Room(before, dest)
    ensures dest + |first| < U64_SPAN && Backed(after, dest + |first|)
    ensures Room(after, dest + |first|) == Room(before, dest) - |first|
  {
    SameRegionsSameRoom(before, after, dest);
    RoomShrinks(after, dest, |first|);
  }

  /** A write that fits with room to spare, and one behind it in the same region, are one write. */
  lemma OneAfterTheOther(before: seq<Bank>, middle: seq<Bank>, after: seq<Bank>,
                         dest: u64, first: seq<u8>, second: seq<u8>)
    requires Written(before, middle, dest, first)
    requires Backed(before, dest) && |first| < Room(before, dest)
    requires dest + |first| < U64_SPAN && Written(middle, after, dest + |first|, second)
    ensures Written(before, after, dest, first + second)
  {
    RoomBehind(before, middle, dest, first);
    assert first[..|first|] == first;
    var n := Min(|second|, Room(middle, dest + |first|));
    OverlaidTwice(before, middle, after, dest, first, second[..n]);
    assert (first + second)[..|first| + n] == first + second[..n];
  }

  lemma NothingWritten(banks: seq<Bank>, dest: u64)
    requires WellFormed(banks)
    ensures Written(banks, banks, dest, [])
  {
    var none: seq<u8> := [];
    assert none[..0] == [];
  }

  lemma LastChunk(chunks: seq<seq<u8>>, i: nat)
    requires i < |chunks|
    ensures Cat(chunks, i, i + 1) == chunks[i]
  {
    assert chunks[i] + [] == chunks[i];
  }

  /**
   If every chunk starts inside the region of its address, writing the chunks in turn, however the
   file was cut up and whether or not it fits, is one write of the file.
   */
  lemma {:induction false} ChunksAreOneWrite(
      states: seq<seq<Bank>>, dest: u64, chunks: seq<seq<u8>>, i: nat, n: nat)
    requires i <= n <= |chunks| && n < |states| && Loads(states, dest, chunks, i, n)
    requires Backed(states[i], dest) && StartInside(chunks, i, n, Room(states[i], dest))
    ensures Written(states[i], states[n], dest, Cat(chunks, i, n))
    decreases n - i
  {
    if i == n {
      NothingWritten(states[i], dest);
    } else if i + 1 == n {
      LastChunk(chunks, i);
    } else {
      var first, middle, next := chunks[i], states[i + 1], dest + |chunks[i]|;
      RoomBehind(states[i], middle, dest, first);
      ChunksAreOneWrite(states, next, chunks, i + 1, n);
      OneAfterTheOther(states[i], middle, states[n], dest, first, Cat(chunks, i + 1, n));
    }
  }

  /** A file that fits starts all its chunks inside. */
  lemma {:induction false} FittingStartsInside(chunks: seq<seq<u8>>, i: nat, n: nat, room: nat)
    requires i <= n <= |chunks| && |Cat(chunks, i, n)| <= room
    requires forall k :: i <= k < n ==> chunks[k] != []
    ensures StartInside(chunks, i, n, room)
    decreases n - i
  {
    if i == n {
    } else {
      FittingStartsInside(chunks, i + 1, n, Less(room, |chunks[i]|));
    }
  }

  /** Memories with the same regions and the same byte at every address. */
  ghost predicate SameMemory(one: seq<Bank>, other: seq<Bank>) {
    && WellFormed(one) && WellFormed(other) && RegionsOf(one) == RegionsOf(other)
    && forall a: u64 :: Peek(one, a) == Peek(other, a)
  }

  /** Two writes of the same bytes to the same memory have the same outcome. */
  lemma WrittenAlike(before: seq<Bank>, one: seq<Bank>, other: seq<Bank>, dest: u64, data: seq<u8>)
    requires Written(before, one, dest, data) && Written(before, other, dest, data)
    ensures SameMemory(one, other)
  {
  }

  // ------------------------------------------------------------------ chunks that start past the end

  /** The memory holds, where a chunk would be stored, the bytes of that chunk already. */
  ghost predicate HoldsAlready(banks: seq<Bank>, dest: u64, chunk: seq<u8>)
    requires WellFormed(banks)
  {
    Backed(banks, dest) ==>
      forall a: u64 :: dest <= a < dest + Min(|chunk|, Room(banks, dest)) ==> Peek(banks, a) == Some(chunk[a - dest])
  }

  /** The same for all the chunks from `i` up to `n`. */
  ghost predicate AllThere(banks: seq<Bank>, dest: nat, chunks: seq<seq<u8>>, i: nat, n: nat)
    requires WellFormed(banks) && i <= n <= |chunks|
    decreases n - i
  {
    i < n ==>
      && dest < U64_SPAN && HoldsAlready(banks, dest, chunks[i])
      && AllThere(banks, dest + |chunks[i]|, chunks, i + 1, n)
  }

  lemma {:induction false} AllThereAlike(
      one: seq<Bank>, other: seq<Bank>, dest: nat, chunks: seq<seq<u8>>, i: nat, n: nat)
    requires SameMemory(one, other) && i <= n <= |chunks|
    ensures AllThere(one, dest, chunks, i, n) <==> AllThere(other, dest, chunks, i, n)
    decreases n - i
  {
    if i == n {
    } else {
      AllThereAlike(one, other, dest + |chunks[i]|, chunks, i + 1, n);
      if dest < U64_SPAN {
        SameRegionsSameRoom(one, other, dest);
      }
    }
  }

  /** One write changes nothing exactly when the bytes were there. */
  lemma WriteChangesNothingExactly(before: seq<Bank>, after: seq<Bank>, dest: u64, chunk: seq<u8>)
    requires Written(before, after, dest, chunk)
    ensures SameMemory(before, after) <==> HoldsAlready(before, dest, chunk)
  {
    if Backed(before, dest) {
      var n := Min(|chunk|, Room(before, dest));
      if SameMemory(before, after) {
        forall a: u64 | dest <= a < dest + n
          ensures Peek(before, a) == Some(chunk[a - dest])
        {
          assert Peek(after, a) == Some(chunk[..n][a - dest]);
        }
      }
    }
  }

  /** Writes at and above an address leave the regions and everything below it alone. */
  lemma {:induction false} LowerStays(
      states: seq<seq<Bank>>, dest: nat, chunks: seq<seq<u8>>, i: nat, n: nat)
    requires i <= n <= |chunks| && n < |states| && Loads(states, dest, chunks, i, n)
    ensures WellFormed(states[n]) && RegionsOf(states[n]) == RegionsOf(states[i])
    ensures forall a: u64 :: a < dest ==> Peek(states[n], a) == Peek(states[i], a)
    decreases n - i
  {
    if i == n {
    } else {
      LowerStays(states, dest + |chunks[i]|, chunks, i + 1, n);
    }
  }

  /** If the chunks together changed nothing, the first of them changed nothing: no later one undoes it. */
  lemma FirstChangedNothing(states: seq<seq<Bank>>, dest: nat, chunks: seq<seq<u8>>, i: nat, n: nat)
    requires i < n <= |chunks| && n < |states| && Loads(states, dest, chunks, i, n)
    requires SameMemory(states[i], states[n])
    ensures SameMemory(states[i], states[i + 1])
  {
    LowerStays(states, dest + |chunks[i]|, chunks, i + 1, n);
    forall a: u64
      ensures Peek(states[i + 1], a) == Peek(states[i], a)
    {
    }
  }

  /** Chunks written in turn change nothing exactly when all their bytes were there. */
  lemma {:induction false} ChunksChangeNothingExactly(
      states: seq<seq<Bank>>, dest: nat, chunks: seq<seq<u8>>, i: nat, n: nat)
    requires i <= n <= |chunks| && n < |states| && Loads(states, dest, chunks, i, n)
    ensures SameMemory(states[i], states[n]) <==> AllThere(states[i], dest, chunks, i, n)
    decreases n - i
  {
    if i == n {
    } else {
      var next := dest + |chunks[i]|;
      WriteChangesNothingExactly(states[i], states[i + 1], dest, chunks[i]);
      ChunksChangeNothingExactly(states, next, chunks, i + 1, n);
      if SameMemory(states[i], states[n]) {
        FirstChangedNothing(states, dest, chunks, i, n);
      }
      if SameMemory(states[i], states[i + 1]) {
        AllThereAlike(states[i], states[i + 1], next, chunks, i + 1, n);
      }
    }
  }

  lemma {:induction false} CatSplit(chunks: seq<seq<u8>>, i: nat, m: nat, n: nat)
    requires i <= m <= n <= |chunks|
    ensures Cat(chunks, i, n) == Cat(chunks, i, m) + Cat(chunks, m, n)
    decreases m - i
  {
    if i == m {
    } else {
      CatSplit(chunks, i + 1, m, n);
    }
  }

  /** A load is a load of its first chunks and a load of the others behind them. */
  lemma {:induction false} LoadsSplit(
      states: seq<seq<Bank>>, dest: nat, chunks: seq<seq<u8>>, i: nat, m: nat, n: nat)
    requires i <= m <= n <= |chunks| && n < |states| && Loads(states, dest, chunks, i, n)
    ensures Loads(states, dest, chunks, i, m)
    ensures Loads(states, dest + |Cat(chunks, i, m)|, chunks, m, n)
    decreases m - i
  {
    if i == m {
    } else {
      LoadsSplit(states, dest + |chunks[i]|, chunks, i + 1, m, n);
    }
  }

  /** Every load divides into chunks that start inside the region and chunks that start past its end. */
  lemma {:induction false} EveryLoadDivides(chunks: seq<seq<u8>>, i: nat, n: nat, room: nat) returns (m: nat)
    requires i <= n <= |chunks|
    ensures i <= m <= n && StartInside(chunks, i, m, room)
    ensures m == n || room <= |Cat(chunks, i, m)|
    decreases n - i
  {
    if i == n || room == 0 {
      m := i;
    } else {
      m := EveryLoadDivides(chunks, i + 1, n, Less(room, |chunks[i]|));
    }
  }

  /** A write is clipped, so what comes after enough bytes does not matter. */
  lemma ClippedTail(before: seq<Bank>, after: seq<Bank>, dest: u64, data: seq<u8>, tail: seq<u8>)
    requires Written(before, after, dest, data + tail) && Backed(before, dest)
    requires tail == [] || Room(before, dest) <= |data|
    ensures Written(before, after, dest, data)
  {
    var n := Min(|data + tail|, Room(before, dest));
    assert (data + tail)[..n] == data[..n];
  }

  lemma SameAsTheSame(one: seq<Bank>, same: seq<Bank>, other: seq<Bank>)
    requires SameMemory(one, same)
    ensures SameMemory(one, other) <==> SameMemory(same, other)
  {
  }

  /** The chunks that start inside have the outcome of writing the whole file at once. */
  lemma InsideIsTheWholeWrite(
      states: seq<seq<Bank>>, whole: seq<Bank>, dest: u64, chunks: seq<seq<u8>>, m: nat)
    requires m <= |chunks| && m < |states| && Loads(states, dest, chunks, 0, m)
    requires Backed(states[0], dest) && StartInside(chunks, 0, m, Room(states[0], dest))
    requires m == |chunks| || Room(states[0], dest) <= |Cat(chunks, 0, m)|
    requires Written(states[0], whole, dest, Cat(chunks, 0, |chunks|))
    ensures SameMemory(whole, states[m])
  {
    ChunksAreOneWrite(states, dest, chunks, 0, m);
    CatSplit(chunks, 0, m, |chunks|);
    ClippedTail(states[0], whole, dest, Cat(chunks, 0, m), Cat(chunks, m, |chunks|));
    WrittenAlike(states[0], states[m], whole, dest, Cat(chunks, 0, m));
  }

  /**
   Of a file's chunks the first `m` start inside the region and the others, if there are any, past
   its end; the first `n` are written.  That leaves the memory that one write of the whole file
   leaves exactly when every byte the chunks from `m` to `n` would store is in that memory already;
   chunks for addresses that are not backed store none.
   */
  lemma LoadingIsOneWriteExactly(
      states: seq<seq<Bank>>, whole: seq<Bank>, dest: u64, chunks: seq<seq<u8>>, m: nat, n: nat)
    requires m <= n <= |chunks| && n < |states| && Loads(states, dest, chunks, 0, n)
    requires Backed(states[0], dest) && StartInside(chunks, 0, m, Room(states[0], dest))
    requires m == |chunks| || Room(states[0], dest) <= |Cat(chunks, 0, m)|
    requires Written(states[0], whole, dest, Cat(chunks, 0, |chunks|))
    ensures SameMemory(whole, states[n]) <==> AllThere(whole, dest + |Cat(chunks, 0, m)|, chunks, m, n)
  {
    var next := dest + |Cat(chunks, 0, m)|;
    LoadsSplit(states, dest, chunks, 0, m, n);
    InsideIsTheWholeWrite(states, whole, dest, chunks, m);
    ChunksChangeNothingExactly(states, next, chunks, m, n);
    AllThereAlike(whole, states[m], next, chunks, m, n);
    SameAsTheSame(whole, states[m], states[n]);
  }

  /**
   Two regions of `n` bytes that touch, both granted, and a file one byte longer than the first: in
   chunks that end with the region its last byte goes to the second region, at once it goes nowhere.
   */
  lemma TouchingRegionsTellTheDifference(n: u64, first: seq<u8>)
    requires 0 < n == |first| && 2 * n < U64_SPAN
    ensures var q, r := Request(0, n, MEMORY_USABLE, true), Request(n, n, MEMORY_USABLE, true);
            var s := AfterAlloc(EMPTY, q);
            && Grants(EMPTY, q) && Grants(s, r)
            && RegionsOf(TwoBanks(n)) == AfterAlloc(s, r).regions && WellFormed(TwoBanks(n))
    ensures exists states: seq<seq<Bank>>, whole ::
              && |states| == 3 && states[0] == TwoBanks(n) && Loads(states, 0, [first, [1]], 0, 2)
              && Written(TwoBanks(n), whole, 0, first + [1]) && !SameMemory(whole, states[2])
  {
    var s0 := TwoBanks(n);
    TwoBanksHold(n);
    var s1 := Store(s0, 0, first);
    StoreIsOverlay(s0, 0, first);
    StoreKeepsRegions(s0, 0, first);
    SameRegionsSameRoom(s0, s1, n);
    var s2 := Store(s1, n, [1]);
    StoreIsOverlay(s1, n, [1]);
    StoreKeepsRegions(s1, n, [1]);
    var states := [s0, s1, s2];
    assert (first + [1])[..n] == first[..n] == first;
    assert [1][..1] == [1];
    assert Written(s0, s1, 0, first) && Written(s1, s2, n, [1]) && Written(s0, s1, 0, first + [1]);
    assert Loads(states, 2 * n, [first, [1]], 2, 2);
    assert Peek(s1, n) == Peek(s0, n) == Some(0) && Peek(s2, n) == Some(1);
    assert !SameMemory(s1, states[2]);
  }

  /** Two usable regions of `n` zero bytes, one behind the other. */
  function TwoBanks(n: u64): seq<Bank>
    requires 2 * n < U64_SPAN
  {
    [Bank(Region(0, n, 0, MEMORY_USABLE), seq(n, _ => 0)), Bank(Region(n, n, 1, MEMORY_USABLE), seq(n, _ => 0))]
  }

  lemma TwoBanksHold(n: u64)
    requires 0 < n && 2 * n < U64_SPAN
    ensures var banks := TwoBanks(n);
            && WellFormed(banks) && RegionsOf(banks) == [banks[0].region, banks[1].region]
            && Find(RegionsOf(banks), 0) == 0 && Find(RegionsOf(banks), n) == 1
            && Backed(banks, 0) && Room(banks, 0) == n && Backed(banks, n) && Room(banks, n) == n
            && Peek(banks, n) == Some(0)
  {
    var regions := RegionsOf(TwoBanks(n));
    assert regions == [TwoBanks(n)[0].region, TwoBanks(n)[1].region];
    assert ApartAt(regions, 0, 1);
    FindIsFirst(regions, 0, 0);
    FindIsFirst(regions, n, 1);
  }

  /** In particular a file that fits, in chunks that are not empty, is loaded as by one write. */
  lemma LoadingIsOneWrite(states: seq<seq<Bank>>, whole: seq<Bank>, dest: u64, chunks: seq<seq<u8>>)
    requires |states| == |chunks| + 1 && Loads(states, dest, chunks, 0, |chunks|)
    requires forall i :: 0 <= i < |chunks| ==> chunks[i] != []
    requires Backed(states[0], dest) && |Cat(chunks, 0, |chunks|)| <= Room(states[0], dest)
    requires Written(states[0], whole, dest, Cat(chunks, 0, |chunks|))
    ensures SameMemory(whole, states[|chunks|])
  {
    FittingStartsInside(chunks, 0, |chunks|, Room(states[0], dest));
    ChunksAreOneWrite(states, dest, chunks, 0, |chunks|);
    WrittenAlike(states[0], states[|chunks|], whole, dest, Cat(chunks, 0, |chunks|));
  }

  /** More memories at the end do not matter. */
  lemma {:induction false} LoadsLonger(
      states: seq<seq<Bank>>, more: seq<seq<Bank>>, dest: nat, chunks: seq<seq<u8>>, i: nat, n: nat)
    requires i <= n <= |chunks| && n < |states| && Loads(states, dest, chunks, i, n)
    ensures Loads(states + more, dest, chunks, i, n)
    decreases n - i
  {
    if i == n {
    } else {
      LoadsLonger(states, more, dest + |chunks[i]|, chunks, i + 1, n);
    }
  }

  /** One more chunk at the end. */
  lemma {:induction false} LoadsAppend(
      states: seq<seq<Bank>>, dest: nat, chunks: seq<seq<u8>>, i: nat, n: nat)
    requires i <= n < |chunks| && n + 1 < |states| && Loads(states, dest, chunks, i, n)
    requires dest + |Cat(chunks, i, n)| < U64_SPAN
    requires Written(states[n], states[n + 1], dest + |Cat(chunks, i, n)|, chunks[n])
    ensures Loads(states, dest, chunks, i, n + 1)
    decreases n - i
  {
    if i == n {
    } else {
      LoadsAppend(states, dest + |chunks[i]|, chunks, i + 1, n);
    }
  }
}
