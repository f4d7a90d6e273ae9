/**
 The byte buffer of queue.c as two threads see it: one thread calls `queue_write`, one thread
 calls `queue_read` and `queue_empty`.  Every access to a field the other thread may be using is a
 step of its own.  (A comparison of the two indices is one step: the reader alone moves `front`,
 the writer alone moves `rear`, so only one of the two can be changing.)  The full and empty tests
 come before the mutex is taken; the byte copies, the index updates and the flag updates come after.
 */
module RingSteps {
  import opened Bytes
  import opened ByteRing

  datatype Holder = Nobody | Writer | Reader

  /** Where the writing thread stands in `queue_write`; `i` is its local byte count. */
  datatype WriterPc =
    | WIdle
    | WLock
    | WStore(i: nat)
    | WAdvance(i: nat)
    | WTest(i: nat)
    | WFlag(i: nat)
    | WUnlock(i: nat)

  /** Where the reading thread stands in `queue_read`, or, at `RPoll`, in `queue_empty`. */
  datatype ReaderPc =
    | RIdle
    | RPoll
    | RCompare
    | RLock
    | RLoad(i: nat)
    | RAdvance(i: nat)
    | RTest(i: nat)
    | RFlag(i: nat)
    | RUnlock(i: nat)

  /**
   The shared fields, the locals of the two threads, and a history that no step looks at:
   `stored` and `delivered` are all the bytes that ever entered and left the ring, `wStart` and
   `rStart` their lengths when the mutex was last taken by that side, and `polled` holds from a
   poll that answered "not empty" until the reader next gives its mutex back.
   */
  datatype State = State(
    buf: seq<u8>, front: nat, rear: nat, full: bool, mutex: Holder,
    wpc: WriterPc, data: seq<u8>,
    rpc: ReaderPc, size: nat, out: seq<u8>,
    stored: seq<u8>, delivered: seq<u8>, wStart: nat, rStart: nat, polled: bool)

  /** What happens next: a call begins, or a thread inside a call takes its next step. */
  datatype Event =
    | CallWrite(bytes: seq<u8>)
    | CallRead(count: nat)
    | CallEmpty
    | WriterStep
    | ReaderStep

  predicate WriterInside(s: State) {
    !s.wpc.WIdle? && !s.wpc.WLock?
  }

  predicate ReaderInside(s: State) {
    s.rpc.RLoad? || s.rpc.RAdvance? || s.rpc.RTest? || s.rpc.RFlag? || s.rpc.RUnlock?
  }

  function Start(buf: seq<u8>): State {
    State(buf, 0, 0, false, Nobody, WIdle, [], RIdle, 0, [], [], [], 0, 0, false)
  }

  /** The array accesses the next step would make are in bounds. */
  predicate InBounds(s: State) {
    && s.front < |s.buf| && s.rear < |s.buf|
    && ((s.wpc.WStore? || s.wpc.WAdvance?) ==> s.wpc.i < |s.data|)
    && (s.rpc.RAdvance? ==> s.rpc.i < |s.out|)
  }

  predicate Enabled(s: State, e: Event) {
    match e
    case CallWrite(_) => s.wpc.WIdle?
    case CallRead(_) => s.rpc.RIdle?
    case CallEmpty => s.rpc.RIdle?
    case WriterStep => !s.wpc.WIdle? && (s.wpc.WLock? ==> s.mutex.Nobody?)
    case ReaderStep => !s.rpc.RIdle? && (s.rpc.RLock? ==> s.mutex.Nobody?)
  }

  function StepWriter(s: State): State
    requires InBounds(s) && Enabled(s, WriterStep)
  {
    match s.wpc
    case WLock => s.(mutex := Writer, wpc := WStore(0), wStart := |s.stored|)
    case WStore(i) => s.(buf := s.buf[s.rear := s.data[i]], wpc := WAdvance(i))
    case WAdvance(i) =>
      s.(rear := (s.rear + 1) % |s.buf|, wpc := WTest(i + 1), stored := s.stored + [s.data[i]])
    case WTest(i) =>
      s.(wpc := if s.front != s.rear && i < |s.data| then WStore(i) else WFlag(i))
    case WFlag(i) => s.(full := s.full || s.front == s.rear, wpc := WUnlock(i))
    case WUnlock(_) => s.(mutex := Nobody, wpc := WIdle)
  }

  function StepReader(s: State): State
    requires InBounds(s) && Enabled(s, ReaderStep)
  {
    match s.rpc
    case RPoll => s.(rpc := RIdle, polled := s.front != s.rear)
    case RCompare => s.(rpc := if s.front == s.rear then RIdle else RLock)
    case RLock => s.(mutex := Reader, rpc := RLoad(0), out := [], rStart := |s.delivered|)
    case RLoad(i) => s.(rpc := RAdvance(i), out := s.out + [s.buf[s.front]])
    case RAdvance(i) =>
      s.(front := (s.front + 1) % |s.buf|, rpc := RTest(i + 1), delivered := s.delivered + [s.out[i]])
    case RTest(i) =>
      s.(rpc := if s.front != s.rear && i < s.size then RLoad(i) else RFlag(i))
    case RFlag(i) => s.(full := s.full && i == 0, rpc := RUnlock(i))
    case RUnlock(_) => s.(mutex := Nobody, rpc := RIdle, polled := false)
  }

  /**
   One step.  A call with nothing to move, a write that reads the flag set, and a poll or a read
   that reads the flag set decide at once; the other polls and reads go on to compare the indices.
   */
  function Step(s: State, e: Event): State
    requires InBounds(s) && Enabled(s, e)
  {
    match e
    case CallWrite(bytes) => if bytes == [] || s.full then s else s.(wpc := WLock, data := bytes)
    case CallRead(count) =>
      if count == 0 then s else s.(rpc := if s.full then RLock else RCompare, size := count)
    case CallEmpty => if s.full then s.(polled := true) else s.(rpc := RPoll)
    case WriterStep => StepWriter(s)
    case ReaderStep => StepReader(s)
  }

  // ------------------------------------------------------------------ the invariant

  /** The number of bytes in the ring. */
  function Held(s: State): int {
    |s.stored| - |s.delivered|
  }

  /** The ring holds exactly the stored bytes that were not delivered yet, in order. */
  ghost predicate RingHolds(buf: seq<u8>, front: nat, rear: nat, stored: seq<u8>, delivered: seq<u8>) {
    && |delivered| <= |stored| <= |delivered| + |buf|
    && front < |buf|
    && rear == Wrap(|buf|, front + (|stored| - |delivered|))
    && stored == delivered + Window(buf, front, |stored| - |delivered|)
  }

  ghost predicate Conserved(s: State) {
    RingHolds(s.buf, s.front, s.rear, s.stored, s.delivered)
  }

  /** `part` is what was appended to `all` since it was `base` long. */
  ghost predicate Since(all: seq<u8>, base: nat, part: seq<u8>) {
    base <= |all| && all[base..] == part
  }

  ghost predicate WriterOk(s: State)
    requires Conserved(s)
  {
    match s.wpc
    case WIdle => true
    case WLock => Held(s) < |s.buf| && s.data != []
    case WStore(i) => Writing(s, i) && !s.full && Held(s) < |s.buf| && i < |s.data|
    case WAdvance(i) =>
      Writing(s, i) && !s.full && Held(s) < |s.buf| && i < |s.data| && s.buf[s.rear] == s.data[i]
    case WTest(i) => Writing(s, i) && !s.full && 0 < i
    case WFlag(i) => Writing(s, i) && !s.full && 0 < i && (Held(s) == |s.buf| || i == |s.data|)
    case WUnlock(i) =>
      && Writing(s, i) && 0 < i
      && (Held(s) == |s.buf| || i == |s.data|)
      && (s.full <==> Held(s) == |s.buf|)
  }

  /** The bytes stored since the writer took the mutex are the first `i` it was given. */
  ghost predicate Writing(s: State, i: nat) {
    i <= |s.data| && |s.delivered| <= s.wStart && Since(s.stored, s.wStart, s.data[..i])
  }

  ghost predicate ReaderOk(s: State)
    requires Conserved(s)
  {
    match s.rpc
    case RIdle => true
    case RPoll => true
    case RCompare => 0 < s.size
    case RLock => 0 < Held(s) && 0 < s.size
    case RLoad(i) => Reading(s, i) && |s.out| == i && FlagWhileReading(s, i) && 0 < Held(s) && i < s.size
    case RAdvance(i) =>
      && Reading(s, i) && FlagWhileReading(s, i) && 0 < Held(s) && i < s.size
      && |s.out| == i + 1 && s.out[i] == s.buf[s.front]
    case RTest(i) => Reading(s, i) && |s.out| == i && FlagWhileReading(s, i) && 0 < i
    case RFlag(i) =>
      && Reading(s, i) && |s.out| == i && FlagWhileReading(s, i) && 0 < i
      && (Held(s) == 0 || i == s.size)
    case RUnlock(i) =>
      && Reading(s, i) && |s.out| == i && 0 < i
      && (Held(s) == 0 || i == s.size)
      && !s.full && Held(s) + i <= |s.buf|
  }

  /** The bytes delivered since the reader took the mutex are the first `i` of its output. */
  ghost predicate Reading(s: State, i: nat) {
    i <= s.size && i <= |s.out| && Since(s.delivered, s.rStart, s.out[..i])
  }

  /** Until the reader clears the flag it still tells how full the ring was before it began. */
  ghost predicate FlagWhileReading(s: State, i: nat) {
    Held(s) + i <= |s.buf| && (s.full <==> Held(s) + i == |s.buf|)
  }

  ghost predicate Inv(s: State) {
    && Conserved(s)
    && (s.mutex.Writer? <==> WriterInside(s))
    && (s.mutex.Reader? <==> ReaderInside(s))
    && WriterOk(s)
    && ReaderOk(s)
    && (s.mutex.Nobody? ==> (s.full <==> Held(s) == |s.buf|))
    && (s.polled && !ReaderInside(s) ==> 0 < Held(s))
  }

  lemma StartInv(buf: seq<u8>)
    requires buf != []
    ensures Inv(Start(buf))
  {
  }

  /** The byte copy writes outside the window, because the ring has room. */
  lemma StoreConserves(s: State)
    requires Conserved(s) && Held(s) < |s.buf| && s.wpc.WStore? && s.wpc.i < |s.data|
    ensures Conserved(s.(buf := s.buf[s.rear := s.data[s.wpc.i]]))
  {
    var b := s.data[s.wpc.i];
    var n := Held(s);
    WindowPush(s.buf, s.front, n, b);
    var next := s.buf[s.rear := b];
    assert Window(next, s.front, n) == Window(next, s.front, n + 1)[..n];
  }

  /** Moving `rear` takes the copied byte into the window. */
  lemma AdvanceRearConserves(s: State, b: u8)
    requires Conserved(s) && Held(s) < |s.buf| && s.buf[s.rear] == b
    ensures Conserved(s.(rear := (s.rear + 1) % |s.buf|, stored := s.stored + [b]))
  {
    AdvanceIsWrap(|s.buf|, s.rear);
    WindowPush(s.buf, s.front, Held(s), b);
    assert s.buf[s.rear := b] == s.buf;
  }

  /** Moving `front` takes the oldest byte out of the window. */
  lemma AdvanceFrontConserves(s: State)
    requires Conserved(s) && 0 < Held(s)
    ensures Conserved(s.(front := (s.front + 1) % |s.buf|, delivered := s.delivered + [s.buf[s.front]]))
  {
    AdvanceIsWrap(|s.buf|, s.front);
    WindowFirst(s.buf, s.front, Held(s));
    var b, rest := s.buf[s.front], Window(s.buf, Wrap(|s.buf|, s.front + 1), Held(s) - 1);
    assert s.delivered + ([b] + rest) == (s.delivered + [b]) + rest;
  }

  lemma WriterCopyInv(s: State)
    requires Inv(s) && InBounds(s) && s.wpc.WStore?
    ensures Inv(StepWriter(s))
  {
    StoreConserves(s);
  }

  lemma WriterAdvanceInv(s: State)
    requires Inv(s) && InBounds(s) && s.wpc.WAdvance?
    ensures Inv(StepWriter(s))
  {
    var i, t := s.wpc.i, StepWriter(s);
    AdvanceRearConserves(s, s.data[i]);
    assert Since(t.stored, t.wStart, s.data[..i] + [s.data[i]]);
    assert t.data[..i + 1] == s.data[..i] + [s.data[i]];
  }

  /** Equal indices mean an empty ring or a full one. */
  lemma EqualIndices(s: State)
    requires Conserved(s)
    ensures s.front == s.rear <==> Held(s) == 0 || Held(s) == |s.buf|
  {
  }

  lemma WriterLockInv(s: State)
    requires Inv(s) && InBounds(s) && Enabled(s, WriterStep) && (s.wpc.WLock? || s.wpc.WUnlock?)
    ensures Inv(StepWriter(s))
  {
    var t := StepWriter(s);
    if s.wpc.WLock? {
      assert Since(t.stored, t.wStart, t.data[..0]);
    }
  }

  lemma WriterTestInv(s: State)
    requires Inv(s) && InBounds(s) && (s.wpc.WTest? || s.wpc.WFlag?)
    ensures Inv(StepWriter(s))
  {
    EqualIndices(s);
  }

  lemma {:induction false} ReaderAdvanceInv(s: State)
    requires Inv(s) && InBounds(s) && s.rpc.RAdvance?
    ensures Inv(StepReader(s))
  {
    var i, t := s.rpc.i, StepReader(s);
    AdvanceFrontConserves(s);
    assert Since(t.delivered, t.rStart, s.out[..i] + [s.out[i]]);
    assert t.out[..i + 1] == s.out[..i] + [s.out[i]];
  }

  lemma ReaderLockInv(s: State)
    requires Inv(s) && InBounds(s) && Enabled(s, ReaderStep) && (s.rpc.RLock? || s.rpc.RUnlock?)
    ensures Inv(StepReader(s))
  {
    var t := StepReader(s);
    if s.rpc.RLock? {
      assert Since(t.delivered, t.rStart, t.out[..0]);
    }
  }

  lemma ReaderLoadInv(s: State)
    requires Inv(s) && InBounds(s) && s.rpc.RLoad?
    ensures Inv(StepReader(s))
  {
    assert StepReader(s).out[..s.rpc.i] == s.out[..s.rpc.i];
  }

  lemma ReaderTestInv(s: State)
    requires Inv(s) && InBounds(s)
    requires s.rpc.RPoll? || s.rpc.RCompare? || s.rpc.RTest? || s.rpc.RFlag?
    ensures Inv(StepReader(s))
  {
    EqualIndices(s);
  }

  /** A call that goes on past its unlocked test has a free cell, or a byte, to work with. */
  lemma CallInv(s: State, e: Event)
    requires Inv(s) && Enabled(s, e) && !e.WriterStep? && !e.ReaderStep?
    ensures InBounds(s) && Inv(Step(s, e))
  {
  }

  /** Every step of either thread, from any reachable state, is in bounds and keeps the invariant. */
  lemma {:induction false} StepInv(s: State, e: Event)
    requires Inv(s) && Enabled(s, e)
    ensures InBounds(s) && Inv(Step(s, e))
  {
    match e
    case CallWrite(_) => CallInv(s, e);
    case CallRead(_) => CallInv(s, e);
    case CallEmpty => CallInv(s, e);
    case WriterStep =>
      match s.wpc {
        case WStore(_) => WriterCopyInv(s);
        case WAdvance(_) => WriterAdvanceInv(s);
        case WTest(_) => WriterTestInv(s);
        case WFlag(_) => WriterTestInv(s);
        case _ => WriterLockInv(s);
      }
    case ReaderStep =>
      match s.rpc {
        case RLoad(_) => ReaderLoadInv(s);
        case RAdvance(_) => ReaderAdvanceInv(s);
        case RLock => ReaderLockInv(s);
        case RUnlock(_) => ReaderLockInv(s);
        case _ => ReaderTestInv(s);
      }
  }

  // ------------------------------------------------------------------ whole runs

  /** A run: an empty ring over some buffer, then events in any order. */
  datatype Run = Begin(buf: seq<u8>) | Then(before: Run, e: Event)

  /** Where a run leads, unless an event was not enabled or a step left the bounds of an array. */
  datatype Ending = At(state: State) | NotEnabled | OutOfBounds

  function End(r: Run): Ending {
    match r
    case Begin(buf) => At(Start(buf))
    case Then(before, e) =>
      match End(before)
      case At(s) =>
        if !Enabled(s, e) then NotEnabled
        else if !InBounds(s) then OutOfBounds
        else At(Step(s, e))
      case bad => bad
  }

  function Buffer(r: Run): seq<u8> {
    match r
    case Begin(buf) => buf
    case Then(before, _) => Buffer(before)
  }

  /** No interleaving ever leaves the bounds of an array, and every reachable state is sound. */
  lemma {:induction false} RunInv(r: Run)
    requires Buffer(r) != []
    ensures End(r) != OutOfBounds
    ensures End(r).At? ==> Inv(End(r).state)
  {
    match r
    case Begin(buf) => StartInv(buf);
    case Then(before, e) =>
      RunInv(before);
      if End(before).At? && Enabled(End(before).state, e) {
        StepInv(End(before).state, e);
      }
  }

  /** In every interleaving, at every moment: delivered bytes, then the ring, are the stored bytes. */
  lemma {:induction false} NothingLostDuplicatedOrReordered(r: Run)
    requires Buffer(r) != [] && End(r).At?
    ensures var s := End(r).state;
            && 0 <= Held(s) <= |s.buf| && s.front < |s.buf|
            && s.stored == s.delivered + Window(s.buf, s.front, Held(s))
  {
    RunInv(r);
  }

  /**
   A writer that saw the ring not full, and waits for the mutex or just took it, has a free cell;
   a reader that saw it not empty has a byte: the first round of either copy loop is legal.
   */
  lemma UnlockedTestsAreStable(r: Run)
    requires Buffer(r) != [] && End(r).At?
    ensures var s := End(r).state;
            && (s.wpc.WLock? || s.wpc == WStore(0) ==> Held(s) < |s.buf| && 0 < |s.data|)
            && (s.rpc.RLock? || s.rpc == RLoad(0) ==> 0 < Held(s) && 0 < s.size)
  {
    RunInv(r);
  }

  /**
   A poll that answered "not empty" stays true whatever the writer does, until the reader's own
   read call is over.
   */
  lemma PollStaysTrue(r: Run)
    requires Buffer(r) != [] && End(r).At?
    requires End(r).state.polled && !ReaderInside(End(r).state)
    ensures End(r).state.delivered < End(r).state.stored
  {
    RunInv(r);
  }

  // ------------------------------------------------------------------ refinement of the atomic queue

  function FirstCommitted(s: State): nat {
    if ReaderInside(s) then s.rStart else |s.delivered|
  }

  function EndCommitted(s: State): nat {
    if WriterInside(s) then s.wStart else |s.stored|
  }

  /** The queue as it was when the thread that now holds the mutex took it. */
  function Committed(s: State): seq<u8> {
    if FirstCommitted(s) <= EndCommitted(s) <= |s.stored|
    then s.stored[FirstCommitted(s)..EndCommitted(s)]
    else []
  }

  /** In a reachable state those positions are in order: the other case never applies. */
  lemma CommittedIsDefined(s: State)
    requires Inv(s)
    ensures FirstCommitted(s) <= EndCommitted(s) <= |s.stored|
  {
  }

  /** Giving the mutex back completes exactly the write the one-call-at-a-time queue performs. */
  lemma WriteIsAtomic(s: State)
    requires Inv(s) && s.wpc.WUnlock?
    ensures Inv(StepWriter(s))
    ensures s.wpc.i == Min(|s.data|, |s.buf| - |Committed(s)|)
    ensures Committed(StepWriter(s)) == Committed(s) + s.data[..s.wpc.i]
  {
    WriterLockInv(s);
    var d := |s.delivered|;
    assert s.stored[d..] == s.stored[d..s.wStart] + s.stored[s.wStart..];
  }

  /** The same for a read: what was copied out is exactly the oldest bytes asked for. */
  lemma ReadIsAtomic(s: State)
    requires Inv(s) && s.rpc.RUnlock?
    ensures Inv(StepReader(s))
    ensures s.rpc.i == Min(s.size, |Committed(s)|)
    ensures s.out == Committed(s)[..s.rpc.i]
    ensures Committed(StepReader(s)) == Committed(s)[s.rpc.i..]
  {
    ReaderLockInv(s);
    var i := s.rpc.i;
    assert s.out[..i] == s.out;
    assert s.delivered == s.stored[..|s.delivered|];
  }

  /** A write turned away by its unlocked test is one the one-call-at-a-time queue turns away too. */
  lemma RefusedWriteIsAtomic(s: State, bytes: seq<u8>)
    requires Inv(s) && s.wpc.WIdle? && (bytes == [] || s.full)
    ensures Step(s, CallWrite(bytes)) == s
    ensures Min(|bytes|, |s.buf| - |Committed(s)|) == 0
  {
  }

  lemma WriterStepIsInvisible(s: State)
    requires Inv(s) && InBounds(s) && Enabled(s, WriterStep) && !s.wpc.WUnlock?
    ensures Committed(StepWriter(s)) == Committed(s)
  {
    assert s.wpc.WAdvance? ==> StepWriter(s).stored[..|s.stored|] == s.stored;
  }

  /** Every other step is invisible: the committed queue does not change. */
  lemma {:induction false} OtherStepsAreInvisible(s: State, e: Event)
    requires Inv(s) && Enabled(s, e)
    requires !(e.WriterStep? && s.wpc.WUnlock?) && !(e.ReaderStep? && s.rpc.RUnlock?)
    ensures Inv(Step(s, e)) && Committed(Step(s, e)) == Committed(s)
  {
    StepInv(s, e);
    if e.WriterStep? {
      WriterStepIsInvisible(s);
    }
  }

  /** The bytes a write in progress has copied already. */
  function InFlight(s: State): seq<u8> {
    if EndCommitted(s) <= |s.stored| then s.stored[EndCommitted(s)..] else []
  }

  /**
   The calls answered so far.  A call that took the mutex stands where it gave it back, a call that
   was turned away or a poll where it was answered; the last two carry the bytes then in flight.
   */
  datatype Calls =
    | NoCalls
    | Wrote(before: Calls, bytes: seq<u8>, count: nat)
    | Took(before: Calls, size: nat, out: seq<u8>)
    | FoundNothing(before: Calls, size: nat, inFlight: seq<u8>)
    | Polled(before: Calls, empty: bool, inFlight: seq<u8>)

  /** The calls after one more event. */
  function CallsAfter(calls: Calls, s: State, e: Event): Calls {
    match e
    case CallWrite(bytes) => if bytes == [] || s.full then Wrote(calls, bytes, 0) else calls
    case CallRead(count) => if count == 0 then Took(calls, 0, []) else calls
    case CallEmpty => if s.full then Polled(calls, false, InFlight(s)) else calls
    case WriterStep => if s.wpc.WUnlock? then Wrote(calls, s.data, s.wpc.i) else calls
    case ReaderStep =>
      if s.rpc.RUnlock? then Took(calls, s.size, s.out)
      else if s.rpc.RCompare? && s.front == s.rear then FoundNothing(calls, s.size, InFlight(s))
      else if s.rpc.RPoll? then Polled(calls, s.front == s.rear, InFlight(s))
      else calls
  }

  function CallsOf(r: Run): Calls
    requires End(r).At?
  {
    match r
    case Begin(_) => NoCalls
    case Then(before, e) => CallsAfter(CallsOf(before), End(before).state, e)
  }

  /** What a queue that takes whole calls one after the other holds after them. */
  function WholeCalls(cap: nat, calls: Calls): (queue: seq<u8>)
    ensures |queue| <= cap
  {
    match calls
    case NoCalls => []
    case Wrote(before, bytes, _) =>
      var q := WholeCalls(cap, before);
      q + bytes[..Min(|bytes|, cap - |q|)]
    case Took(before, size, _) =>
      var q := WholeCalls(cap, before);
      q[Min(size, |q|)..]
    case FoundNothing(before, _, _) => WholeCalls(cap, before)
    case Polled(before, _, _) => WholeCalls(cap, before)
  }

  /**
   Every call was answered the way that queue answers it, where a poll counts bytes in flight as
   held, with one exception: "empty" is also answered when the bytes held and in flight are as many
   as fit.
   */
  ghost predicate Answered(cap: nat, calls: Calls) {
    match calls
    case NoCalls => true
    case Wrote(before, bytes, count) =>
      Answered(cap, before) && count == Min(|bytes|, cap - |WholeCalls(cap, before)|)
    case Took(before, size, out) =>
      var q := WholeCalls(cap, before);
      Answered(cap, before) && out == q[..Min(size, |q|)]
    case FoundNothing(before, size, inFlight) =>
      var n := |WholeCalls(cap, before)| + |inFlight|;
      Answered(cap, before) && 0 < size && (n == 0 || n == cap)
    case Polled(before, empty, inFlight) =>
      var n := |WholeCalls(cap, before)| + |inFlight|;
      Answered(cap, before) && if empty then n == 0 || n == cap else n > 0
  }

  /** The state is what the whole calls so far lead to. */
  ghost predicate Explained(s: State, cap: nat, calls: Calls) {
    Inv(s) && |s.buf| == cap && Committed(s) == WholeCalls(cap, calls) && Answered(cap, calls)
  }

  lemma WriteIsExplained(s: State, cap: nat, calls: Calls)
    requires Explained(s, cap, calls) && s.wpc.WUnlock?
    ensures Explained(StepWriter(s), cap, Wrote(calls, s.data, s.wpc.i))
  {
    WriteIsAtomic(s);
  }

  lemma {:induction false} ReadIsExplained(s: State, cap: nat, calls: Calls)
    requires Explained(s, cap, calls) && s.rpc.RUnlock?
    ensures Explained(StepReader(s), cap, Took(calls, s.size, s.out))
  {
    ReadIsAtomic(s);
  }

  /** A write or a read with nothing to do, and a write that found the flag set. */
  lemma {:induction false} TurnedAwayIsExplained(s: State, e: Event, cap: nat, calls: Calls)
    requires Explained(s, cap, calls) && Enabled(s, e) && (e.CallWrite? || e.CallRead?)
    ensures InBounds(s) && Explained(Step(s, e), cap, CallsAfter(calls, s, e))
  {
    OtherStepsAreInvisible(s, e);
    if e.CallWrite? && (e.bytes == [] || s.full) {
      RefusedWriteIsAtomic(s, e.bytes);
    }
  }

  /** While the reader is outside, the committed queue and the bytes in flight are what is held. */
  lemma HeldIsCommittedAndInFlight(s: State)
    requires Inv(s) && !ReaderInside(s)
    ensures |Committed(s)| + |InFlight(s)| == Held(s)
    ensures s.full ==> Held(s) == |s.buf|
  {
  }

  lemma {:induction false} LookIsExplained(s: State, e: Event, cap: nat, calls: Calls)
    requires Explained(s, cap, calls) && Enabled(s, e)
    requires e.CallEmpty? || (e.ReaderStep? && (s.rpc.RCompare? || s.rpc.RPoll?))
    ensures InBounds(s) && Explained(Step(s, e), cap, CallsAfter(calls, s, e))
  {
    OtherStepsAreInvisible(s, e);
    HeldIsCommittedAndInFlight(s);
    EqualIndices(s);
  }

  lemma {:induction false} OthersAreExplained(s: State, e: Event, cap: nat, calls: Calls)
    requires Explained(s, cap, calls) && Enabled(s, e)
    requires (e.WriterStep? && !s.wpc.WUnlock?)
          || (e.ReaderStep? && !s.rpc.RUnlock? && !s.rpc.RCompare? && !s.rpc.RPoll?)
    ensures Explained(Step(s, e), cap, calls)
  {
    OtherStepsAreInvisible(s, e);
  }

  lemma {:induction false} EventIsExplained(s: State, e: Event, cap: nat, calls: Calls)
    requires Explained(s, cap, calls) && Enabled(s, e)
    ensures InBounds(s) && Explained(Step(s, e), cap, CallsAfter(calls, s, e))
  {
    match e
    case CallWrite(_) => TurnedAwayIsExplained(s, e, cap, calls);
    case CallRead(_) => TurnedAwayIsExplained(s, e, cap, calls);
    case CallEmpty => LookIsExplained(s, e, cap, calls);
    case WriterStep =>
      if s.wpc.WUnlock? {
        WriteIsExplained(s, cap, calls);
      } else {
        OthersAreExplained(s, e, cap, calls);
      }
    case ReaderStep =>
      if s.rpc.RUnlock? {
        ReadIsExplained(s, cap, calls);
      } else if s.rpc.RCompare? || s.rpc.RPoll? {
        LookIsExplained(s, e, cap, calls);
      } else {
        OthersAreExplained(s, e, cap, calls);
      }
  }

  /**
   Every interleaving amounts to whole calls, one after the other, refused and empty-handed ones
   included: the same answers, up to the one exception, and the same bytes left in the queue.
   */
  lemma {:induction false} EveryRunIsWholeCalls(r: Run)
    requires Buffer(r) != [] && End(r).At?
    ensures Explained(End(r).state, |Buffer(r)|, CallsOf(r))
  {
    match r
    case Begin(buf) => StartInv(buf);
    case Then(before, e) =>
      EveryRunIsWholeCalls(before);
      EventIsExplained(End(before).state, e, |Buffer(before)|, CallsOf(before));
  }

  // ------------------------------------------------------------------ every call is answered

  /** The reads, the writes and the polls called for in a run, in order. */
  function ReadsCalled(r: Run): seq<nat> {
    match r
    case Begin(_) => []
    case Then(before, e) => ReadsCalled(before) + if e.CallRead? then [e.count] else []
  }

  function WritesCalled(r: Run): seq<seq<u8>> {
    match r
    case Begin(_) => []
    case Then(before, e) => WritesCalled(before) + if e.CallWrite? then [e.bytes] else []
  }

  function PollsCalled(r: Run): nat {
    match r
    case Begin(_) => 0
    case Then(before, e) => PollsCalled(before) + if e.CallEmpty? then 1 else 0
  }

  /** Those that were answered. */
  function ReadsAnswered(calls: Calls): seq<nat> {
    match calls
    case NoCalls => []
    case Took(before, size, _) => ReadsAnswered(before) + [size]
    case FoundNothing(before, size, _) => ReadsAnswered(before) + [size]
    case _ => ReadsAnswered(calls.before)
  }

  function WritesAnswered(calls: Calls): seq<seq<u8>> {
    match calls
    case NoCalls => []
    case Wrote(before, bytes, _) => WritesAnswered(before) + [bytes]
    case _ => WritesAnswered(calls.before)
  }

  function PollsAnswered(calls: Calls): nat {
    match calls
    case NoCalls => 0
    case Polled(before, _, _) => PollsAnswered(before) + 1
    case _ => PollsAnswered(calls.before)
  }

  /** The calls that are still under way. */
  function ReadPending(s: State): seq<nat> {
    if s.rpc.RIdle? || s.rpc.RPoll? then [] else [s.size]
  }

  function WritePending(s: State): seq<seq<u8>> {
    if s.wpc.WIdle? then [] else [s.data]
  }

  function PollPending(s: State): nat {
    if s.rpc.RPoll? then 1 else 0
  }

  ghost predicate CallsAccounted(r: Run, s: State, calls: Calls) {
    && ReadsCalled(r) == ReadsAnswered(calls) + ReadPending(s)
    && WritesCalled(r) == WritesAnswered(calls) + WritePending(s)
    && PollsCalled(r) == PollsAnswered(calls) + PollPending(s)
  }

  lemma {:induction false} ReaderStepIsAccounted(s: State, calls: Calls)
    requires InBounds(s) && Enabled(s, ReaderStep)
    ensures ReadsAnswered(CallsAfter(calls, s, ReaderStep)) + ReadPending(StepReader(s))
         == ReadsAnswered(calls) + ReadPending(s)
  {
    if s.rpc.RUnlock? || (s.rpc.RCompare? && s.front == s.rear) {
      assert ReadsAnswered(CallsAfter(calls, s, ReaderStep)) == ReadsAnswered(calls) + [s.size];
    } else {
      assert ReadsAnswered(CallsAfter(calls, s, ReaderStep)) == ReadsAnswered(calls);
    }
  }

  lemma {:induction false} ReadIsAccounted(s: State, e: Event, calls: Calls)
    requires InBounds(s) && Enabled(s, e)
    ensures ReadsAnswered(CallsAfter(calls, s, e)) + ReadPending(Step(s, e))
         == ReadsAnswered(calls) + ReadPending(s) + if e.CallRead? then [e.count] else []
  {
    if e.ReaderStep? {
      ReaderStepIsAccounted(s, calls);
      assert ReadsAnswered(calls) + ReadPending(s) + [] == ReadsAnswered(calls) + ReadPending(s);
    }
  }

  lemma {:induction false} WriteIsAccounted(s: State, e: Event, calls: Calls)
    requires InBounds(s) && Enabled(s, e)
    ensures WritesAnswered(CallsAfter(calls, s, e)) + WritePending(Step(s, e))
         == WritesAnswered(calls) + WritePending(s) + if e.CallWrite? then [e.bytes] else []
  {
  }

  lemma {:induction false} PollIsAccounted(s: State, e: Event, calls: Calls)
    requires InBounds(s) && Enabled(s, e)
    ensures PollsAnswered(CallsAfter(calls, s, e)) + PollPending(Step(s, e))
         == PollsAnswered(calls) + PollPending(s) + if e.CallEmpty? then 1 else 0
  {
  }

  /** In every run every call is answered, once, in the order of the calls, or is still under way. */
  lemma {:induction false} EveryCallIsAnswered(r: Run)
    requires Buffer(r) != [] && End(r).At?
    ensures CallsAccounted(r, End(r).state, CallsOf(r))
  {
    match r
    case Begin(_) =>
    case Then(before, e) =>
      RunInv(r);
      EveryCallIsAnswered(before);
      ReadIsAccounted(End(before).state, e, CallsOf(before));
      WriteIsAccounted(End(before).state, e, CallsOf(before));
      PollIsAccounted(End(before).state, e, CallsOf(before));
  }

  /** The last poll since the last read that took bytes said "not empty". */
  function LastPollWasGood(calls: Calls): bool {
    match calls
    case NoCalls => false
    case Polled(_, empty, _) => !empty
    case Took(before, size, _) => size == 0 && LastPollWasGood(before)
    case _ => LastPollWasGood(calls.before)
  }

  lemma {:induction false} PollIsRemembered(s: State, e: Event, calls: Calls)
    requires Inv(s) && InBounds(s) && Enabled(s, e) && s.polled == LastPollWasGood(calls)
    ensures Step(s, e).polled == LastPollWasGood(CallsAfter(calls, s, e))
  {
  }

  /** The history `polled` is what the answers to the polls say. */
  lemma {:induction false} PolledIsTheLastPoll(r: Run)
    requires Buffer(r) != [] && End(r).At?
    ensures End(r).state.polled == LastPollWasGood(CallsOf(r))
  {
    match r
    case Begin(_) =>
    case Then(before, e) =>
      RunInv(before);
      PolledIsTheLastPoll(before);
      PollIsRemembered(End(before).state, e, CallsOf(before));
  }

  /** Where a sequence of events leads from a state. */
  function Walk(s: State, es: seq<Event>): Ending
    decreases |es|
  {
    if es == [] then At(s)
    else if !Enabled(s, es[0]) then NotEnabled
    else if !InBounds(s) then OutOfBounds
    else Walk(Step(s, es[0]), es[1..])
  }

  /** The first answer to a read on the way, if there is one. */
  function FirstRead(s: State, es: seq<Event>): Option<seq<u8>>
    requires Walk(s, es).At?
    decreases |es|
  {
    if es == [] then None
    else if es[0].ReaderStep? && s.rpc.RUnlock? then Some(s.out)
    else if es[0].ReaderStep? && s.rpc.RCompare? && s.front == s.rear then Some([])
    else if es[0] == CallRead(0) then Some([])
    else FirstRead(Step(s, es[0]), es[1..])
  }

  /** A read of `count` bytes is under way that found, or will find, the ring full of the last bytes of `stored`. */
  ghost predicate FullReadUnderWay(s: State, stored: seq<u8>, first: nat, count: nat) {
    && Inv(s) && s.stored == stored && s.size == count && first + |s.buf| == |stored|
    && (if s.rpc.RLock? then |s.delivered| == first else ReaderInside(s) && s.rStart == first)
  }

  lemma {:induction false} FullReadGoesOn(s: State, e: Event, stored: seq<u8>, first: nat, count: nat)
    requires FullReadUnderWay(s, stored, first, count) && Enabled(s, e)
    requires !(e.ReaderStep? && s.rpc.RUnlock?)
    ensures InBounds(s) && FullReadUnderWay(Step(s, e), stored, first, count)
    ensures |Step(s, e).buf| == |s.buf|
  {
    StepInv(s, e);
  }

  lemma FullReadEnds(s: State, stored: seq<u8>, first: nat, count: nat)
    requires FullReadUnderWay(s, stored, first, count) && s.rpc.RUnlock?
    ensures first + Min(count, |s.buf|) <= |stored|
    ensures s.out == stored[first..first + Min(count, |s.buf|)]
  {
    var i := s.rpc.i;
    assert s.out[..i] == s.out && s.delivered[first..] == s.out;
    assert stored[..|s.delivered|] == s.delivered;
    assert stored[first..first + i] == s.delivered[first..];
  }

  lemma {:induction false} FullReadDelivers(s: State, es: seq<Event>, stored: seq<u8>, first: nat, count: nat)
    requires FullReadUnderWay(s, stored, first, count) && Walk(s, es).At?
    ensures FirstRead(s, es).Some? ==>
              && first + Min(count, |s.buf|) <= |stored|
              && FirstRead(s, es).value == stored[first..first + Min(count, |s.buf|)]
    decreases |es|
  {
    if es == [] {
    } else if es[0].ReaderStep? && s.rpc.RUnlock? {
      FullReadEnds(s, stored, first, count);
    } else {
      FullReadGoesOn(s, es[0], stored, first, count);
      FullReadDelivers(Step(s, es[0]), es[1..], stored, first, count);
    }
  }

  /**
   A read called while the flag is set is never answered "empty": whatever happens meanwhile, it
   delivers the oldest bytes, as many as asked for or all that the ring holds.
   */
  lemma {:induction false} FlaggedReadDelivers(s: State, count: nat, es: seq<Event>)
    requires Inv(s) && s.full && s.rpc.RIdle? && 0 < count
    requires InBounds(s) && Walk(Step(s, CallRead(count)), es).At?
    ensures var answer := FirstRead(Step(s, CallRead(count)), es);
            var d := |s.delivered|;
            && Step(s, CallRead(count)).rpc == RLock
            && (answer.Some? ==>
                  && d + Min(count, |s.buf|) <= |s.stored|
                  && answer.value == s.stored[d..d + Min(count, |s.buf|)])
  {
    HeldIsCommittedAndInFlight(s);
    StepInv(s, CallRead(count));
    FullReadDelivers(Step(s, CallRead(count)), es, s.stored, |s.delivered|, count);
  }

  /** A thread that has something to do can go on unless the other one holds the mutex; an idle one can call. */
  lemma NobodyIsStuck(s: State)
    requires Inv(s)
    ensures s.wpc.WIdle? ==> forall bytes :: Enabled(s, CallWrite(bytes))
    ensures s.rpc.RIdle? ==> Enabled(s, CallEmpty) && forall count :: Enabled(s, CallRead(count))
    ensures !s.wpc.WIdle? ==> (Enabled(s, WriterStep) <==> !(s.wpc.WLock? && s.mutex.Reader?))
    ensures !s.rpc.RIdle? ==> (Enabled(s, ReaderStep) <==> !(s.rpc.RLock? && s.mutex.Writer?))
  {
  }

  // ------------------------------------------------------------------ the spurious "empty"

  /**
   The comparison made by a read or a poll that found the flag clear answers "empty" exactly when
   the ring is empty, or is completely full by then.  After a poll that answered "not empty" only
   the second case is left.
   */
  lemma EmptyAnswerExactly(s: State)
    requires Inv(s) && (s.rpc.RCompare? || s.rpc.RPoll?)
    ensures s.rpc.RCompare? ==> (StepReader(s).rpc.RIdle? <==> Held(s) == 0 || Held(s) == |s.buf|)
    ensures s.rpc.RPoll? ==> (!StepReader(s).polled <==> Held(s) == 0 || Held(s) == |s.buf|)
    ensures s.rpc.RCompare? && s.polled ==> (StepReader(s).rpc.RIdle? <==> Held(s) == |s.buf|)
  {
    EqualIndices(s);
  }

  // ------------------------------------------------------------------ rings that never fill

  /** At no moment of the run the ring was completely full. */
  predicate NeverFull(r: Run) {
    match End(r)
    case At(s) => Held(s) < |s.buf| && (r.Then? ==> NeverFull(r.before))
    case _ => false
  }

  /** Every call was answered the way a queue that takes whole calls answers it, without exception. */
  ghost predicate Exact(cap: nat, calls: Calls) {
    match calls
    case NoCalls => true
    case Wrote(before, bytes, count) =>
      Exact(cap, before) && count == Min(|bytes|, cap - |WholeCalls(cap, before)|)
    case Took(before, size, out) =>
      var q := WholeCalls(cap, before);
      Exact(cap, before) && out == q[..Min(size, |q|)]
    case FoundNothing(before, _, inFlight) =>
      Exact(cap, before) && WholeCalls(cap, before) == [] && inFlight == []
    case Polled(before, empty, inFlight) =>
      Exact(cap, before) && (empty <==> WholeCalls(cap, before) + inFlight == [])
  }

  /** One event in a state that is not completely full adds no exception. */
  lemma {:induction false} EventIsExact(s: State, e: Event, cap: nat, calls: Calls)
    requires Explained(s, cap, calls) && Enabled(s, e) && Exact(cap, calls) && Held(s) < |s.buf|
    ensures Exact(cap, CallsAfter(calls, s, e))
  {
    EventIsExplained(s, e, cap, calls);
    if !ReaderInside(s) {
      HeldIsCommittedAndInFlight(s);
    }
  }

  /**
   A buffer that never fills up completely removes the exception: in such a run every answer, at
   every step size, is that of whole calls one after the other.
   */
  lemma {:induction false} RunThatNeverFillsIsExact(r: Run)
    requires Buffer(r) != [] && NeverFull(r)
    ensures Exact(|Buffer(r)|, CallsOf(r))
  {
    match r
    case Begin(_) =>
    case Then(before, e) =>
      EveryRunIsWholeCalls(before);
      RunThatNeverFillsIsExact(before);
      EventIsExact(End(before).state, e, |Buffer(before)|, CallsOf(before));
  }

  /** ... and a read after a poll that said "not empty" goes on to the mutex and to a byte. */
  lemma PolledReadFindsAByte(r: Run)
    requires Buffer(r) != [] && NeverFull(r)
    requires End(r).state.polled && End(r).state.rpc.RCompare?
    ensures var next := End(Then(r, ReaderStep));
            next.At? && next.state.rpc.RLock? && 0 < Held(next.state)
  {
    RunInv(r);
    StepInv(End(r).state, ReaderStep);
    EmptyAnswerExactly(End(r).state);
  }

  /** A ring of two cells after one byte went in and a poll said "not empty". */
  const POLLED: State :=
    State([7, 0], 0, 1, false, Nobody, WIdle, [7], RIdle, 0, [], [7], [], 0, 0, true)

  const ONE_BYTE: State :=
    State([7, 0], 0, 1, false, Nobody, WIdle, [7], RIdle, 0, [], [7], [], 0, 0, false)

  /** The same ring when a read has sampled the flag and a second byte has gone in since. */
  const OVERTAKEN: State :=
    State([7, 8], 0, 0, false, Writer, WTest(1), [8], RCompare, 1, [], [7, 8], [], 1, 0, true)

  lemma PolledIsReached()
    ensures exists r :: Buffer(r) == [0, 0] && End(r) == At(POLLED)
  {
    var r0 := Begin([0, 0]);
    var r1 := Then(r0, CallWrite([7]));
    assert End(r1) == At(State([0, 0], 0, 0, false, Nobody, WLock, [7], RIdle, 0, [], [], [], 0, 0, false));
    var r2 := Then(r1, WriterStep);
    assert End(r2) == At(State([0, 0], 0, 0, false, Writer, WStore(0), [7], RIdle, 0, [], [], [], 0, 0, false));
    var r3 := Then(r2, WriterStep);
    assert End(r3) == At(State([7, 0], 0, 0, false, Writer, WAdvance(0), [7], RIdle, 0, [], [], [], 0, 0, false));
    assert Buffer(r3) == [0, 0];
    ByteIsIn(r3);
    var r :| Buffer(r) == [0, 0] && End(r) == At(ONE_BYTE);
    var r8 := Then(r, CallEmpty);
    var r9 := Then(r8, ReaderStep);
    assert Buffer(r9) == [0, 0];
    assert End(r9) == At(POLLED);
  }

  lemma ByteIsIn(r3: Run)
    requires End(r3) == At(State([7, 0], 0, 0, false, Writer, WAdvance(0), [7], RIdle, 0, [], [], [], 0, 0, false))
    ensures exists r :: Buffer(r) == Buffer(r3) && End(r) == At(ONE_BYTE)
  {
    var r4 := Then(r3, WriterStep);
    assert End(r4) == At(State([7, 0], 0, 1, false, Writer, WTest(1), [7], RIdle, 0, [], [7], [], 0, 0, false));
    var r5 := Then(r4, WriterStep);
    assert End(r5) == At(State([7, 0], 0, 1, false, Writer, WFlag(1), [7], RIdle, 0, [], [7], [], 0, 0, false));
    assert Buffer(r4) == Buffer(r3) && Buffer(r5) == Buffer(r4);
    var r6 := Then(r5, WriterStep);
    assert Buffer(r6) == Buffer(r5);
    var r7 := Then(r6, WriterStep);
    assert Buffer(r7) == Buffer(r6) && End(r7) == At(ONE_BYTE);
  }

  lemma OvertakenFollows(r: Run)
    requires End(r) == At(POLLED)
    ensures exists t :: Buffer(t) == Buffer(r) && End(t) == At(OVERTAKEN)
  {
    var r1 := Then(r, CallRead(1));
    var r2 := Then(r1, CallWrite([8]));
    assert End(r2) == At(POLLED.(rpc := RCompare, size := 1, wpc := WLock, data := [8]));
    assert Buffer(r2) == Buffer(r);
    var r3 := Then(r2, WriterStep);
    var r4 := Then(r3, WriterStep);
    assert End(r4) == At(State([7, 8], 0, 1, false, Writer, WAdvance(0), [8], RCompare, 1, [], [7], [], 1, 0, true));
    assert Buffer(r4) == Buffer(r);
    var r5 := Then(r4, WriterStep);
    assert Buffer(r5) == Buffer(r4);
    assert End(r5) == At(OVERTAKEN);
  }

  /** After a poll that said "not empty" the read itself can answer "empty" with two bytes waiting. */
  lemma SpuriousEmptyExists()
    ensures exists r :: Buffer(r) == [0, 0] && End(r) == At(OVERTAKEN)
    ensures OVERTAKEN.polled && Held(OVERTAKEN) == 2 && OVERTAKEN.rpc.RCompare?
    ensures StepReader(OVERTAKEN) == OVERTAKEN.(rpc := RIdle)
  {
    PolledIsReached();
    var r :| Buffer(r) == [0, 0] && End(r) == At(POLLED);
    OvertakenFollows(r);
  }

  // ------------------------------------------------------------------ progress

  /** Own steps the writer still needs, at most, to give the mutex back. */
  function WriterWork(s: State): int {
    match s.wpc
    case WStore(i) => 3 * (|s.data| - i) + 3
    case WAdvance(i) => 3 * (|s.data| - i) + 2
    case WTest(i) => 3 * (|s.data| - i) + 4
    case WFlag(_) => 2
    case WUnlock(_) => 1
    case _ => 0
  }

  function ReaderWork(s: State): int {
    match s.rpc
    case RLoad(i) => 3 * (s.size - i) + 3
    case RAdvance(i) => 3 * (s.size - i) + 2
    case RTest(i) => 3 * (s.size - i) + 4
    case RFlag(_) => 2
    case RUnlock(_) => 1
    case _ => 0
  }

  /** Whoever holds the mutex can always step, and each of its steps brings the release nearer. */
  lemma HolderAlwaysProgresses(s: State)
    requires Inv(s)
    ensures s.mutex.Writer? ==>
              Enabled(s, WriterStep) && 0 <= WriterWork(StepWriter(s)) < WriterWork(s)
    ensures s.mutex.Reader? ==>
              Enabled(s, ReaderStep) && 0 <= ReaderWork(StepReader(s)) < ReaderWork(s)
    ensures WriterInside(s) && WriterWork(StepWriter(s)) == 0 ==> StepWriter(s).mutex.Nobody?
    ensures ReaderInside(s) && ReaderWork(StepReader(s)) == 0 ==> StepReader(s).mutex.Nobody?
  {
  }

  predicate GivesBack(s: State, e: Event) {
    (e.WriterStep? && s.wpc.WUnlock?) || (e.ReaderStep? && s.rpc.RUnlock?)
  }

  /** How often the mutex is given back on the way. */
  function Handovers(s: State, es: seq<Event>): nat
    requires Walk(s, es).At?
    decreases |es|
  {
    if es == [] then 0
    else (if GivesBack(s, es[0]) then 1 else 0) + Handovers(Step(s, es[0]), es[1..])
  }

  /** How often the writer can still give the mutex back while the reader moves nothing. */
  function WriterTurns(s: State): int {
    |s.buf| - Held(s) + if WriterInside(s) && s.wpc != WStore(0) && s.wpc != WAdvance(0) then 1 else 0
  }

  /** How often the reader can still give the mutex back while the writer moves nothing. */
  function ReaderTurns(s: State): int {
    Held(s) + if ReaderInside(s) && s.rpc != RLoad(0) && s.rpc != RAdvance(0) then 1 else 0
  }

  lemma {:induction false} WriterTurnsDrop(s: State, e: Event)
    requires Inv(s) && Enabled(s, e) && s.rpc.RLock? && !e.ReaderStep?
    ensures InBounds(s) && Inv(Step(s, e)) && Step(s, e).rpc.RLock? && |Step(s, e).buf| == |s.buf|
    ensures 0 <= WriterTurns(Step(s, e)) <= WriterTurns(s) - if GivesBack(s, e) then 1 else 0
  {
    StepInv(s, e);
  }

  lemma {:induction false} ReaderTurnsDrop(s: State, e: Event)
    requires Inv(s) && Enabled(s, e) && s.wpc.WLock? && !e.WriterStep?
    ensures InBounds(s) && Inv(Step(s, e)) && Step(s, e).wpc.WLock?
    ensures 0 <= ReaderTurns(Step(s, e)) <= ReaderTurns(s) - if GivesBack(s, e) then 1 else 0
  {
    StepInv(s, e);
  }

  /**
   While the reader waits for the mutex, the writer gives it back at most as often as there are
   free cells, and once more if it is inside with bytes copied: then the reader's turn comes.
   */
  lemma {:induction false} ReaderWaitsBoundedly(s: State, es: seq<Event>)
    requires Inv(s) && s.rpc.RLock? && Walk(s, es).At? && ReaderStep !in es
    ensures Handovers(s, es) <= WriterTurns(s) <= |s.buf| - Held(s) + 1
    decreases |es|
  {
    if es == [] {
    } else {
      WriterTurnsDrop(s, es[0]);
      ReaderWaitsBoundedly(Step(s, es[0]), es[1..]);
    }
  }

  /** While the writer waits, the reader gives the mutex back at most as often as there are bytes, and once more. */
  lemma {:induction false} WriterWaitsBoundedly(s: State, es: seq<Event>)
    requires Inv(s) && s.wpc.WLock? && Walk(s, es).At? && WriterStep !in es
    ensures Handovers(s, es) <= ReaderTurns(s) <= Held(s) + 1
    decreases |es|
  {
    if es == [] {
    } else {
      ReaderTurnsDrop(s, es[0]);
      WriterWaitsBoundedly(Step(s, es[0]), es[1..]);
    }
  }
}
