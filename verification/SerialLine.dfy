/** The UART of serial.c: two byte queues in opposite directions behind guest ports. */
module SerialLine {
  import opened Bytes
  import opened ByteRing
  import Bits

  // Registers, as offsets from the port of the device.
  const THR: u16 := 0x0
  const RBR: u16 := 0x0
  const LSR: u16 := 0x5

  /** -1 as a `size_t`. */
  const MINUS_ONE: nat := U64_SPAN - 1

  /** `port - base` in 16 bits. */
  function RegisterOf(base: u16, port: u16): u16 {
    if base <= port then port - base else port - base + 0x1_0000
  }

  /** What the two queues hold; both have room for `capacity` bytes. */
  datatype Line = Line(capacity: nat, toGuest: seq<u8>, toHost: seq<u8>)

  /** The part of `data` that a queue holding `held` takes. */
  function Accepted(capacity: nat, held: seq<u8>, data: seq<u8>): seq<u8>
    requires |held| <= capacity
  {
    data[..Min(|data|, capacity - |held|)]
  }

  predicate Fits(l: Line) {
    |l.toGuest| <= l.capacity && |l.toHost| <= l.capacity
  }

  /** What the host or the guest does to the device. */
  datatype Event =
    | HostSend(data: seq<u8>)
    | HostReceive(size: nat)
    | GuestOut(port: u16, value: u8)
    | GuestIn(port: u16)

  function After(base: u16, l: Line, e: Event): (r: Line)
    requires Fits(l)
    ensures Fits(r) && r.capacity == l.capacity
  {
    match e
    case HostSend(data) => l.(toGuest := l.toGuest + Accepted(l.capacity, l.toGuest, data))
    case HostReceive(size) => l.(toHost := l.toHost[Min(size, |l.toHost|)..])
    case GuestOut(port, data) =>
      if RegisterOf(base, port) == THR then l.(toHost := l.toHost + Accepted(l.capacity, l.toHost, [data])) else l
    case GuestIn(port) =>
      if RegisterOf(base, port) == RBR then l.(toGuest := l.toGuest[Min(1, |l.toGuest|)..]) else l
  }

  /** The line status: data ready in bit 0, transmitter always ready in bit 5. */
  function LineStatus(ready: bool): u8 {
    if ready then 0x21 else 0x20
  }

  /** The guest's own test of bit 0. */
  predicate DataReady(status: u8) {
    status % 2 == 1
  }

  /** The byte a guest read returns; 0 stands for "nothing there" and for registers not modelled. */
  function ByteIn(base: u16, l: Line, port: u16): u8 {
    if RegisterOf(base, port) == RBR then (if l.toGuest == [] then 0 else l.toGuest[0])
    else if RegisterOf(base, port) == LSR then LineStatus(l.toGuest != [])
    else 0
  }

  /** Which register a port stands for: the one that many ports above the base. */
  lemma RegisterExactly(base: u16, port: u16)
    ensures (base + RegisterOf(base, port)) % 0x1_0000 == port
    ensures RegisterOf(base, port) == 0 <==> port == base
    ensures RegisterOf(base, port) == 5 <==> port == (base + 5) % 0x1_0000
  {
  }

  /** The line status shows a byte for the guest exactly when one waits; other registers show nothing. */
  lemma LineStatusShowsExactly(base: u16, l: Line, port: u16)
    ensures port == (base + 5) % 0x1_0000 ==>
              (DataReady(ByteIn(base, l, port)) <==> l.toGuest != []) && ByteIn(base, l, port) / 0x20 == 1
    ensures port != base && port != (base + 5) % 0x1_0000 ==> ByteIn(base, l, port) == 0
  {
    RegisterExactly(base, port);
  }

  class Serial {
    const port: u16
    const guestQueue: Queue
    const hostQueue: Queue

    ghost predicate Valid()
      reads this, guestQueue, hostQueue
    {
      && guestQueue != hostQueue && guestQueue.buffer != hostQueue.buffer
      && guestQueue.Valid() && hostQueue.Valid()
      && guestQueue.buffer.Length == hostQueue.buffer.Length
    }

    ghost function View(): (l: Line)
      requires Valid()
      reads this, guestQueue, hostQueue, guestQueue.buffer, hostQueue.buffer
      ensures Fits(l)
    {
      Line(hostQueue.buffer.Length, hostQueue.Contents(), guestQueue.Contents())
    }

    constructor (port: u16, bufferSize: nat)
      ensures this.port == port && (Valid() <==> bufferSize > 0)
      ensures Valid() ==> View() == Line(bufferSize, [], [])
      ensures fresh(guestQueue) && fresh(guestQueue.buffer) && fresh(hostQueue) && fresh(hostQueue.buffer)
    {
      this.port := port;
      guestQueue := new Queue(bufferSize);
      hostQueue := new Queue(bufferSize);
    }

    method OutB(p: u16, data: u8)
      requires Valid()
      modifies guestQueue, guestQueue.buffer
      ensures Valid() && View() == After(port, old(View()), GuestOut(p, data))
      ensures p == port && |old(View()).toHost| < View().capacity ==> View().toHost == old(View()).toHost + [data]
      ensures p != port ==> View() == old(View())
    {
      RegisterExactly(port, p);
      var register := RegisterOf(port, p);
      if register == THR {
        var n := guestQueue.Write([data]);
      }
    }

    method InB(p: u16) returns (b: u8)
      requires Valid()
      modifies hostQueue
      ensures Valid() && View() == After(port, old(View()), GuestIn(p))
      ensures b == ByteIn(port, old(View()), p)
      ensures p == port ==> b == if old(View()).toGuest == [] then 0 else old(View()).toGuest[0]
      ensures p == (port + 5) % 0x1_0000 ==> b == if old(View()).toGuest == [] then 0x20 else 0x21
      ensures p != port && p != (port + 5) % 0x1_0000 ==> b == 0 && View() == old(View())
    {
      RegisterExactly(port, p);
      var register := RegisterOf(port, p);
      if register == RBR {
        var data := new u8[1](_ => 0);
        ghost var held := hostQueue.Contents();
        var n := hostQueue.Read(data, 1);
        assert n == 0 ==> data[0] == 0 && held == [];
        return data[0];
      } else if register == LSR {
        var empty := hostQueue.Empty();
        return LineStatus(!empty);
      }
      return 0;
    }

    /** The host takes what the guest sent; without a buffer nothing happens and the answer is -1. */
    method Read(out: array?<u8>, size: nat) returns (n: nat)
      requires Valid() && out != guestQueue.buffer && out != hostQueue.buffer
      requires out != null ==> size <= out.Length
      modifies guestQueue, out
      ensures Valid() && View() == if out == null then old(View()) else After(port, old(View()), HostReceive(size))
      ensures n == if out == null then 0xFFFF_FFFF_FFFF_FFFF else Min(size, |old(View()).toHost|)
      ensures out != null ==> forall k :: 0 <= k < n ==> out[k] == old(View()).toHost[k]
    {
      if out == null {
        return MINUS_ONE;
      }
      n := guestQueue.Read(out, size);
    }

    /** The host sends to the guest; without a buffer nothing happens and the answer is -1. */
    method Write(data: Option<seq<u8>>) returns (n: nat)
      requires Valid()
      modifies hostQueue, hostQueue.buffer
      ensures Valid() && View() == if data == None then old(View()) else After(port, old(View()), HostSend(data.value))
      ensures n == if data == None then 0xFFFF_FFFF_FFFF_FFFF
                   else |Accepted(View().capacity, old(View()).toGuest, data.value)|
    {
      if data == None {
        return MINUS_ONE;
      }
      n := hostQueue.Write(data.value);
    }
  }

  // ------------------------------------------------------------------ whole runs

  /**
   A run so far.  `sent` and `emitted` are the bytes the queues took from the host and from the
   guest; `got` is every byte the guest read from the receive register; `taken` and `heard` are
   the bytes that left the queues.  `ready` holds between a poll of the line status that showed
   data and the next receive read; `polite` holds as long as the guest read only when `ready`, and
   `fed` as long as every receive read found a byte.  `typed` is every byte the guest wrote to the
   transmit register, and `roomy` holds as long as each of them found room.
   */
  datatype Trace = Trace(
    line: Line, sent: seq<u8>, got: seq<u8>, taken: seq<u8>, emitted: seq<u8>, heard: seq<u8>,
    ready: bool, polite: bool, fed: bool, typed: seq<u8>, roomy: bool)

  function Opened(capacity: nat): Trace {
    Trace(Line(capacity, [], []), [], [], [], [], [], false, true, true, [], true)
  }

  function Next(base: u16, t: Trace, e: Event): (r: Trace)
    requires Fits(t.line)
    ensures Fits(r.line)
  {
    var l := t.line;
    var t' := t.(line := After(base, l, e));
    match e
    case HostSend(data) => t'.(sent := t.sent + Accepted(l.capacity, l.toGuest, data))
    case HostReceive(size) => t'.(heard := t.heard + l.toHost[..Min(size, |l.toHost|)])
    case GuestOut(port, data) =>
      if RegisterOf(base, port) == THR then
        t'.(emitted := t.emitted + Accepted(l.capacity, l.toHost, [data]), typed := t.typed + [data],
            roomy := t.roomy && |l.toHost| < l.capacity)
      else t'
    case GuestIn(port) =>
      if RegisterOf(base, port) == RBR then
        t'.(got := t.got + [ByteIn(base, l, port)], taken := t.taken + l.toGuest[..Min(1, |l.toGuest|)],
            ready := false, polite := t.polite && t.ready, fed := t.fed && l.toGuest != [])
      else if RegisterOf(base, port) == LSR then t'.(ready := DataReady(ByteIn(base, l, port)))
      else t'
  }

  function Play(base: u16, t: Trace, es: seq<Event>): (r: Trace)
    requires Fits(t.line)
    ensures Fits(r.line)
    decreases |es|
  {
    if es == [] then t else Play(base, Next(base, t, es[0]), es[1..])
  }

  ghost predicate Sound(t: Trace) {
    && t.taken + t.line.toGuest == t.sent
    && t.heard + t.line.toHost == t.emitted
    && (t.ready ==> t.line.toGuest != [])
    && (t.polite ==> t.fed)
    && (if t.fed then t.got == t.taken else |t.got| > |t.taken|)
    && (if t.roomy then t.emitted == t.typed else |t.emitted| < |t.typed|)
  }

  lemma TakeAndRest(s: seq<u8>, n: nat)
    requires n <= |s|
    ensures s == s[..n] + s[n..]
  {
  }

  lemma GuestReadKeepsSound(base: u16, t: Trace, port: u16)
    requires Fits(t.line) && Sound(t) && RegisterOf(base, port) == RBR
    ensures Sound(Next(base, t, GuestIn(port)))
  {
    var held := t.line.toGuest;
    TakeAndRest(held, Min(1, |held|));
    if t.ready {
      assert held[..1] == [held[0]];
    }
  }

  lemma HostKeepsSound(base: u16, t: Trace, e: Event)
    requires Fits(t.line) && Sound(t) && (e.HostSend? || e.HostReceive?)
    ensures Sound(Next(base, t, e))
  {
    if e.HostReceive? {
      TakeAndRest(t.line.toHost, Min(e.size, |t.line.toHost|));
    }
  }

  lemma NextKeepsSound(base: u16, t: Trace, e: Event)
    requires Fits(t.line) && Sound(t)
    ensures Sound(Next(base, t, e))
  {
    match e
    case HostSend(_) => HostKeepsSound(base, t, e);
    case HostReceive(_) => HostKeepsSound(base, t, e);
    case GuestOut(_, _) =>
    case GuestIn(port) =>
      if RegisterOf(base, port) == RBR {
        GuestReadKeepsSound(base, t, port);
      } else if RegisterOf(base, port) == LSR {
      }
  }

  /** A poll shows data exactly when the guest has not read all that the host's queue took. */
  lemma PollSeesExactly(base: u16, capacity: nat, es: seq<Event>)
    ensures var t := Play(base, Opened(capacity), es);
            Next(base, t, GuestIn((base + 5) % 0x1_0000)).ready <==> |t.taken| < |t.sent|
  {
    var t := Play(base, Opened(capacity), es);
    PlayKeepsSound(base, Opened(capacity), es);
    RegisterExactly(base, (base + 5) % 0x1_0000);
    LineStatusShowsExactly(base, t.line, (base + 5) % 0x1_0000);
    assert |t.taken + t.line.toGuest| == |t.sent|;
  }

  /** A guest that polls and then reads, so many times. */
  function PollAndRead(base: u16, n: nat): seq<Event> {
    if n == 0 then [] else [GuestIn((base + 5) % 0x1_0000), GuestIn(base)] + PollAndRead(base, n - 1)
  }

  lemma PlayTwo(base: u16, t: Trace, e: Event, f: Event, rest: seq<Event>)
    requires Fits(t.line)
    ensures Play(base, t, [e, f] + rest) == Play(base, Next(base, Next(base, t, e), f), rest)
  {
    var es := [e, f] + rest;
    assert es[0] == e && es[1..] == [f] + rest;
    assert es[1..][0] == f && es[1..][1..] == rest;
  }

  lemma OneRound(base: u16, t: Trace, rest: seq<Event>) returns (once: Trace)
    requires Fits(t.line) && t.line.toGuest != []
    ensures Fits(once.line) && once.line.toGuest == t.line.toGuest[1..]
    ensures once.got == t.got + [t.line.toGuest[0]] && once.polite == t.polite && once.fed == t.fed
    ensures Play(base, t, [GuestIn((base + 5) % 0x1_0000), GuestIn(base)] + rest) == Play(base, once, rest)
  {
    var status := (base + 5) % 0x1_0000;
    RegisterExactly(base, status);
    RegisterExactly(base, base);
    LineStatusShowsExactly(base, t.line, status);
    PlayTwo(base, t, GuestIn(status), GuestIn(base), rest);
    once := Next(base, Next(base, t, GuestIn(status)), GuestIn(base));
  }

  /** A later trace in which the guest has read all that waited for it. */
  predicate CaughtUp(t: Trace, later: Trace) {
    && later.got == t.got + t.line.toGuest && later.line.toGuest == []
    && later.polite == t.polite && later.fed == t.fed
  }

  lemma OneMoreCaught(t: Trace, once: Trace, later: Trace)
    requires t.line.toGuest != [] && once.line.toGuest == t.line.toGuest[1..] && CaughtUp(once, later)
    requires once.got == t.got + [t.line.toGuest[0]] && once.polite == t.polite && once.fed == t.fed
    ensures CaughtUp(t, later)
  {
    var held := t.line.toGuest;
    assert t.got + [held[0]] + held[1..] == t.got + held;
  }

  /** As many rounds of poll and read as bytes wait: every poll shows data, and the guest has read them all. */
  lemma {:induction false} PollAndReadGetsThemAll(base: u16, t: Trace, n: nat)
    requires Fits(t.line) && n == |t.line.toGuest|
    ensures CaughtUp(t, Play(base, t, PollAndRead(base, n)))
    decreases n
  {
    if n == 0 {
    } else {
      var once := OneRound(base, t, PollAndRead(base, n - 1));
      var later := Play(base, once, PollAndRead(base, n - 1));
      PollAndReadGetsThemAll(base, once, n - 1);
      OneMoreCaught(t, once, later);
    }
  }

  /** Bit 0 of the line status is set exactly when a byte is waiting for the guest. */
  lemma LineStatusBit(ready: bool)
    ensures LineStatus(ready) == Bits.Or(if ready then 1 else 0, Bits.Shl(1, 5))
    ensures Bits.And(LineStatus(ready), 1) == 1 <==> ready
    ensures Bits.And(LineStatus(ready), Bits.Shl(1, 5)) == Bits.Shl(1, 5)
  {
    assert Bits.Shl(1, 5) == 32;
  }

  lemma {:induction false} PlayKeepsSound(base: u16, t: Trace, es: seq<Event>)
    requires Fits(t.line) && Sound(t)
    ensures Sound(Play(base, t, es))
    decreases |es|
  {
    if es == [] {
    } else {
      NextKeepsSound(base, t, es[0]);
      PlayKeepsSound(base, Next(base, t, es[0]), es[1..]);
    }
  }

  /** Over any run, in both directions: bytes that left the queue, then its contents, are the bytes it took. */
  lemma NothingLostOnTheLine(base: u16, capacity: nat, es: seq<Event>)
    ensures var t := Play(base, Opened(capacity), es);
            && t.taken + t.line.toGuest == t.sent
            && t.heard + t.line.toHost == t.emitted
  {
    PlayKeepsSound(base, Opened(capacity), es);
  }

  /**
   A guest that reads only after a poll that showed data reads exactly the host's bytes, in order,
   and never the filler, whatever the host does in between.
   */
  lemma PollThenReadIsTheHostsStream(base: u16, capacity: nat, es: seq<Event>)
    requires Play(base, Opened(capacity), es).polite
    ensures var t := Play(base, Opened(capacity), es);
            t.got + t.line.toGuest == t.sent
  {
    PlayKeepsSound(base, Opened(capacity), es);
  }

  /** What the guest read is the host's stream exactly when no receive read found the queue empty. */
  lemma ReadsAreTheHostsStreamExactly(base: u16, capacity: nat, es: seq<Event>)
    ensures var t := Play(base, Opened(capacity), es);
            t.got + t.line.toGuest == t.sent <==> t.fed
  {
    PlayKeepsSound(base, Opened(capacity), es);
    var t := Play(base, Opened(capacity), es);
    assert !t.fed ==> |t.got + t.line.toGuest| > |t.taken + t.line.toGuest|;
  }

  /** Until the guest's own next read, a poll that showed data stays true. */
  lemma ReadyStaysTrue(base: u16, capacity: nat, es: seq<Event>)
    requires Play(base, Opened(capacity), es).ready
    ensures Play(base, Opened(capacity), es).line.toGuest != []
  {
    PlayKeepsSound(base, Opened(capacity), es);
  }

  /** Without the poll the guest can read a 0 nobody sent. */
  lemma UnpolledReadCanBeFiller(base: u16)
    ensures var t := Next(base, Opened(1), GuestIn(base));
            t.got == [0] && t.sent == []
  {
    assert RegisterOf(base, base) == RBR;
  }

  /** What the host gets is what the guest wrote exactly when no transmitted byte found the queue full. */
  lemma GuestOutputArrivesExactly(base: u16, capacity: nat, es: seq<Event>)
    ensures var t := Play(base, Opened(capacity), es);
            t.heard + t.line.toHost == t.typed <==> t.roomy
  {
    PlayKeepsSound(base, Opened(capacity), es);
    var t := Play(base, Opened(capacity), es);
    assert !t.roomy ==> |t.heard + t.line.toHost| < |t.typed|;
  }

  /** A second byte to a line that holds one is lost, though the line status shows the transmitter ready. */
  lemma GuestOutputCanBeDropped(base: u16, a: u8, b: u8)
    ensures var once := Next(base, Opened(1), GuestOut(base, a));
            var t := Next(base, once, GuestOut(base, b));
            && Bits.And(ByteIn(base, once.line, (base + LSR) % 0x1_0000), Bits.Shl(1, 5)) == Bits.Shl(1, 5)
            && t.typed == [a, b] && t.line.toHost == [a] && t.heard == []
  {
    assert RegisterOf(base, base) == THR && RegisterOf(base, (base + LSR) % 0x1_0000) == LSR;
    LineStatusBit(false);
    var once := Next(base, Opened(1), GuestOut(base, a));
    assert Accepted(1, [], [a]) == [a] && Accepted(1, [a], [b]) == [];
    assert once.line.toHost == [a] && once.typed == [a];
  }
}
