/** The loop of examples/guests/main.c that loads a file into guest memory, one buffer at a time. */
module Loader {
  import opened Bytes
  import opened FlatMemory
  import GuestMemory

  const BUFFER_SIZE: nat := 1024

  /** `states` are the memories from `first` to `last` that writing the first `n` chunks went through. */
  ghost predicate Loaded(states: seq<seq<Bank>>, first: seq<Bank>, last: seq<Bank>,
                         dest: nat, chunks: seq<seq<u8>>, n: nat)
  {
    && n <= |chunks| && |states| == n + 1 && states[0] == first && states[n] == last
    && Loads(states, dest, chunks, 0, n)
  }

  /** The next chunk was written: what was loaded so far is one chunk more. */
  lemma OneMore(states: seq<seq<Bank>>, first: seq<Bank>, before: seq<Bank>, after: seq<Bank>,
                dest: nat, at: u64, chunks: seq<seq<u8>>, n: nat)
    requires Loaded(states, first, before, dest, chunks, n) && n < |chunks|
    requires at == dest + |Cat(chunks, 0, n)| && Written(before, after, at, chunks[n])
    ensures Loaded(states + [after], first, after, dest, chunks, n + 1)
    ensures |Cat(chunks, 0, n + 1)| == |Cat(chunks, 0, n)| + |chunks[n]|
  {
    LoadsLonger(states, [after], dest, chunks, 0, n);
    LoadsAppend(states + [after], dest, chunks, 0, n);
    CatSplit(chunks, 0, n, n + 1);
    LastChunk(chunks, n);
  }

  /** One round: the write, and the test that it did not fail. */
  method WriteChunk(m: GuestMemory.Memory, at: u64, chunk: seq<u8>, ghost before: seq<Bank>) returns (written: bool)
    requires m.Valid() && |chunk| <= BUFFER_SIZE && before == m.Banks()
    modifies GuestMemory.Arrays(m.entries.spine)
    ensures m.Valid() && Written(before, m.Banks(), at, chunk)
    ensures written <==> Backed(before, at)
    ensures !written ==> m.Banks() == before
  {
    var r := m.Write(at, chunk);
    return r >= 0;
  }

  /**
   Writes the chunks that the reads of the file return, one behind the other, and gives up at the
   first whose address is not backed.  `states` are the memories the loop goes through.
   */
  method Load(m: GuestMemory.Memory, dest: u64, chunks: seq<seq<u8>>)
    returns (loaded: nat, ok: bool, ghost states: seq<seq<Bank>>)
    requires m.Valid()
    requires forall i :: 0 <= i < |chunks| ==> 0 < |chunks[i]| <= BUFFER_SIZE
    requires dest + |Cat(chunks, 0, |chunks|)| < U64_SPAN
    modifies GuestMemory.Arrays(m.entries.spine)
    ensures m.Valid()
    ensures Loaded(states, old(m.Banks()), m.Banks(), dest, chunks, loaded)
    ensures ok <==> loaded == |chunks|
    ensures !ok ==> dest + |Cat(chunks, 0, loaded)| < U64_SPAN
                    && !Backed(m.Banks(), dest + |Cat(chunks, 0, loaded)|)
  {
    ghost var first, banks := m.Banks(), m.Banks();
    m.BanksWellFormed();
    states := [first];
    loaded := 0;
    var readed := 0;
    while loaded < |chunks|
      invariant m.Valid() && banks == m.Banks()
      invariant Loaded(states, first, banks, dest, chunks, loaded)
      invariant readed == |Cat(chunks, 0, loaded)|
    {
      CatSplit(chunks, 0, loaded, |chunks|);
      var at := dest + readed;
      var written := WriteChunk(m, at, chunks[loaded], banks);
      if !written {
        return loaded, false, states;
      }
      ghost var after := m.Banks();
      OneMore(states, first, banks, after, dest, at, chunks, loaded);
      states, banks := states + [after], after;
      readed := readed + |chunks[loaded]|;
      loaded := loaded + 1;
    }
    return loaded, true, states;
  }
}
