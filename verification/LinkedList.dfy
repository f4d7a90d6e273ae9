/**
 The doubly linked list of linked_list.c, on the heap.

 `linked_list_add` points the `prev` link of the first node at the new last node, so the usual
 invariant "the first node has no predecessor" does not survive a second `Add`.  `Valid` is what
 every list made by `Add` and `PopFront` satisfies; `Tight` adds the usual invariant, and the
 operations that follow `prev` at the front of the list are correct exactly as far as it, or the
 distance from both ends, carries them.
 */
module LinkedList {
  import opened Bytes

  class Node<T> {
    var prev: Node?<T>
    var next: Node?<T>
    const value: T

    constructor (value: T, prev: Node?<T>)
      ensures this.value == value && this.prev == prev && this.next == null
    {
      this.value, this.prev, this.next := value, prev, null;
    }
  }

  function ValuesOf<T>(nodes: seq<Node<T>>): (values: seq<T>)
    ensures |values| == |nodes|
  {
    seq(|nodes|, i requires 0 <= i < |nodes| => nodes[i].value)
  }

  /** The nodes from position `j` on that a removal by `eq` leaves, in order. */
  function KeptFrom<T>(nodes: seq<Node<T>>, j: nat, eq: T -> int): seq<Node<T>>
    requires j <= |nodes|
    decreases |nodes| - j
  {
    if j == |nodes| then []
    else (if eq(nodes[j].value) == 1 then [] else [nodes[j]]) + KeptFrom(nodes, j + 1, eq)
  }

  /** The nodes from position `j` on that it takes out, in order. */
  function DroppedFrom<T>(nodes: seq<Node<T>>, j: nat, eq: T -> int): seq<Node<T>>
    requires j <= |nodes|
    decreases |nodes| - j
  {
    if j == |nodes| then []
    else (if eq(nodes[j].value) == 1 then [nodes[j]] else []) + DroppedFrom(nodes, j + 1, eq)
  }

  function Kept<T>(nodes: seq<Node<T>>, eq: T -> int): seq<Node<T>> {
    KeptFrom(nodes, 0, eq)
  }

  function Dropped<T>(nodes: seq<Node<T>>, eq: T -> int): seq<Node<T>> {
    DroppedFrom(nodes, 0, eq)
  }

  /** Going past the first of the nodes still to come. */
  lemma PassOver<T>(done: seq<Node<T>>, todo: seq<Node<T>>)
    requires todo != []
    ensures |done| < |done + todo| && (done + todo)[|done|] == todo[0]
    ensures Without(done + todo, |done|) == done + todo[1..]
    ensures (done + [todo[0]]) + todo[1..] == done + todo
  {
  }

  lemma PassOverValue<T>(done: seq<T>, todo: seq<Node<T>>)
    requires todo != []
    ensures (done + [todo[0].value]) + ValuesOf(todo[1..]) == done + ValuesOf(todo)
  {
  }

  /** The list halfway through a removal: what was kept so far, then the nodes from `j` on. */
  function Halfway<T>(kept: seq<Node<T>>, nodes: seq<Node<T>>, j: nat): seq<Node<T>>
    requires j <= |nodes|
    decreases |nodes| - j
  {
    if j == |nodes| then kept else Halfway(kept + [nodes[j]], nodes, j + 1)
  }

  lemma {:induction false} HalfwayIs<T>(kept: seq<Node<T>>, nodes: seq<Node<T>>, j: nat)
    requires j <= |nodes|
    ensures Halfway(kept, nodes, j) == kept + nodes[j..]
    decreases |nodes| - j
  {
    if j == |nodes| {
    } else {
      HalfwayIs(kept + [nodes[j]], nodes, j + 1);
    }
  }

  lemma HalfwayStarts<T>(nodes: seq<Node<T>>)
    ensures Halfway([], nodes, 0) == nodes
  {
    HalfwayIs([], nodes, 0);
  }

  lemma HalfwayStep<T>(kept: seq<Node<T>>, nodes: seq<Node<T>>, j: nat)
    requires j < |nodes|
    ensures |Halfway(kept, nodes, j)| == |kept| + |nodes| - j
    ensures NodeAt(Halfway(kept, nodes, j), |kept|) == nodes[j]
    ensures NodeAt(Halfway(kept, nodes, j), |kept| + 1) == NodeAt(nodes, j + 1)
    ensures Without(Halfway(kept, nodes, j), |kept|) == Halfway(kept, nodes, j + 1)
  {
    HalfwayIs(kept, nodes, j);
    HalfwayIs(kept, nodes, j + 1);
  }

  /** What a removal has done so far: nodes kept, nodes freed, values released, nodes counted. */
  datatype Removal<T> = Removal(kept: seq<Node<T>>, freed: seq<Node<T>>, released: seq<T>, count: nat)

  function Advance<T>(r: Removal<T>, n: Node<T>, eq: T -> int, freesValues: bool): Removal<T> {
    if eq(n.value) == 1 then
      Removal(r.kept, r.freed + [n], if freesValues then r.released + [n.value] else r.released, r.count + 1)
    else
      r.(kept := r.kept + [n])
  }

  function Finish<T>(r: Removal<T>, nodes: seq<Node<T>>, j: nat, eq: T -> int, freesValues: bool): Removal<T>
    requires j <= |nodes|
    decreases |nodes| - j
  {
    if j == |nodes| then r else Finish(Advance(r, nodes[j], eq, freesValues), nodes, j + 1, eq, freesValues)
  }

  /** A removal after some more nodes were kept and some more taken out. */
  function Further<T>(r: Removal<T>, kept: seq<Node<T>>, gone: seq<Node<T>>, freesValues: bool): Removal<T> {
    Removal(r.kept + kept, r.freed + gone, if freesValues then r.released + ValuesOf(gone) else r.released,
            r.count + |gone|)
  }

  lemma FurtherKept<T>(r: Removal<T>, n: Node<T>, kept: seq<Node<T>>, gone: seq<Node<T>>, freesValues: bool)
    ensures Further(r.(kept := r.kept + [n]), kept, gone, freesValues) == Further(r, [n] + kept, gone, freesValues)
  {
    assert (r.kept + [n]) + kept == r.kept + ([n] + kept);
  }

  lemma FurtherGone<T>(r: Removal<T>, n: Node<T>, kept: seq<Node<T>>, gone: seq<Node<T>>, freesValues: bool)
    ensures Further(Removal(r.kept, r.freed + [n], if freesValues then r.released + [n.value] else r.released,
                            r.count + 1), kept, gone, freesValues)
         == Further(r, kept, [n] + gone, freesValues)
  {
    assert (r.freed + [n]) + gone == r.freed + ([n] + gone);
    assert ValuesOf([n] + gone) == [n.value] + ValuesOf(gone);
    assert (r.released + [n.value]) + ValuesOf(gone) == r.released + ([n.value] + ValuesOf(gone));
  }

  /** Going through the nodes one by one keeps, frees and counts what the two filters say. */
  lemma {:induction false} FinishFilters<T>(r: Removal<T>, nodes: seq<Node<T>>, j: nat, eq: T -> int, freesValues: bool)
    requires j <= |nodes|
    ensures Finish(r, nodes, j, eq, freesValues)
         == Further(r, KeptFrom(nodes, j, eq), DroppedFrom(nodes, j, eq), freesValues)
    decreases |nodes| - j
  {
    if j == |nodes| {
      assert ValuesOf(DroppedFrom(nodes, j, eq)) == [];
    } else {
      var n, kept, gone := nodes[j], KeptFrom(nodes, j + 1, eq), DroppedFrom(nodes, j + 1, eq);
      FinishFilters(Advance(r, n, eq, freesValues), nodes, j + 1, eq, freesValues);
      if eq(n.value) == 1 {
        FurtherGone(r, n, kept, gone, freesValues);
        assert [] + kept == kept;
      } else {
        FurtherKept(r, n, kept, gone, freesValues);
        assert [] + gone == gone;
      }
    }
  }

  /** Kept and dropped nodes are exactly the nodes, sorted by whether `eq` answers 1. */
  lemma KeptAndDropped<T>(nodes: seq<Node<T>>, eq: T -> int)
    ensures |Kept(nodes, eq)| + |Dropped(nodes, eq)| == |nodes|
    ensures forall n :: n in Kept(nodes, eq) <==> n in nodes && eq(n.value) != 1
    ensures forall n :: n in Dropped(nodes, eq) <==> n in nodes && eq(n.value) == 1
  {
    KeptAndDroppedFrom(nodes, 0, eq);
    assert nodes[0..] == nodes;
  }

  lemma {:induction false} KeptAndDroppedFrom<T>(nodes: seq<Node<T>>, j: nat, eq: T -> int)
    requires j <= |nodes|
    ensures |KeptFrom(nodes, j, eq)| + |DroppedFrom(nodes, j, eq)| == |nodes| - j
    ensures forall n :: n in KeptFrom(nodes, j, eq) <==> n in nodes[j..] && eq(n.value) != 1
    ensures forall n :: n in DroppedFrom(nodes, j, eq) <==> n in nodes[j..] && eq(n.value) == 1
    decreases |nodes| - j
  {
    if j == |nodes| {
    } else {
      KeptAndDroppedFrom(nodes, j + 1, eq);
      assert nodes[j..] == [nodes[j]] + nodes[j + 1..];
    }
  }

  /** `sub` is what is left of `nodes`, from position `j` on, when some are struck out. */
  ghost predicate InOrder<T>(sub: seq<Node<T>>, nodes: seq<Node<T>>, j: nat)
    requires j <= |nodes|
    decreases |nodes| - j
  {
    || sub == []
    || (j < |nodes| && sub[0] == nodes[j] && InOrder(sub[1..], nodes, j + 1))
    || (j < |nodes| && InOrder(sub, nodes, j + 1))
  }

  /** The kept nodes stand in the order they had, and so do the dropped ones. */
  lemma {:induction false} KeptInOrder<T>(nodes: seq<Node<T>>, j: nat, eq: T -> int)
    requires j <= |nodes|
    ensures InOrder(KeptFrom(nodes, j, eq), nodes, j) && InOrder(DroppedFrom(nodes, j, eq), nodes, j)
    decreases |nodes| - j
  {
    if j == |nodes| {
    } else {
      KeptInOrder(nodes, j + 1, eq);
      var k, d := KeptFrom(nodes, j, eq), DroppedFrom(nodes, j, eq);
      if eq(nodes[j].value) == 1 {
        assert k == KeptFrom(nodes, j + 1, eq) && d[1..] == DroppedFrom(nodes, j + 1, eq);
      } else {
        assert d == DroppedFrom(nodes, j + 1, eq) && k[1..] == KeptFrom(nodes, j + 1, eq);
      }
    }
  }

  /** `nodes` without the node at position `k`. */
  function Without<T>(nodes: seq<Node<T>>, k: nat): (rest: seq<Node<T>>)
    requires k < |nodes|
    ensures |rest| == |nodes| - 1
  {
    seq(|nodes| - 1, i requires 0 <= i < |nodes| - 1 => nodes[if i < k then i else i + 1])
  }

  lemma WithoutIsCutOut<T>(nodes: seq<Node<T>>, k: nat)
    requires k < |nodes|
    ensures Without(nodes, k) == nodes[..k] + nodes[k + 1..]
  {
  }

  lemma WithoutFirst<T>(nodes: seq<Node<T>>)
    requires nodes != []
    ensures Without(nodes, 0) == nodes[1..]
  {
  }

  /** A node on the books was allocated, and is in the list or was freed, not both. */
  ghost predicate Booked<T>(made: set<Node<T>>, spine: seq<Node<T>>, freed: seq<Node<T>>, n: Node<T>) {
    n in made && (n in spine <==> n !in freed)
  }

  /** Every node ever allocated is in the list or was freed, once and not both. */
  ghost predicate Ledger<T>(made: set<Node<T>>, spine: seq<Node<T>>, freed: seq<Node<T>>) {
    && NoDuplicates(spine) && NoDuplicates(freed)
    && (forall n {:trigger Booked(made, spine, freed, n)} :: n in spine ==> Booked(made, spine, freed, n))
    && (forall n {:trigger Booked(made, spine, freed, n)} :: n in freed ==> Booked(made, spine, freed, n))
    && (forall n {:trigger Booked(made, spine, freed, n)} :: n in made ==> Booked(made, spine, freed, n))
  }

  lemma LedgerAdd<T>(made: set<Node<T>>, spine: seq<Node<T>>, freed: seq<Node<T>>, n: Node<T>)
    requires Ledger(made, spine, freed) && n !in made
    ensures Ledger(made + {n}, spine + [n], freed)
  {
    var longer := spine + [n];
    assert n in spine ==> Booked(made, spine, freed, n);
    assert n in freed ==> Booked(made, spine, freed, n);
    forall i, j | 0 <= i < |longer| && 0 <= j < |longer| && i != j
      ensures Differ(longer, i, j)
    {
      assert i < |spine| ==> spine[i] in spine;
      assert j < |spine| ==> spine[j] in spine;
      assert i < |spine| && j < |spine| ==> Differ(spine, i, j);
    }
    forall m | m in longer || m in freed || m in made + {n}
      ensures Booked(made + {n}, longer, freed, m)
    {
      assert m != n ==> Booked(made, spine, freed, m);
    }
  }

  lemma LedgerFree<T>(made: set<Node<T>>, spine: seq<Node<T>>, freed: seq<Node<T>>, k: nat)
    requires Ledger(made, spine, freed) && k < |spine|
    ensures spine[k] !in freed && spine[k] !in Without(spine, k)
    ensures Ledger(made, Without(spine, k), freed + [spine[k]])
  {
    var rest, gone := Without(spine, k), freed + [spine[k]];
    assert spine[k] in spine && Booked(made, spine, freed, spine[k]);
    WithoutNode(spine, k);
    forall i, j | 0 <= i < |rest| && 0 <= j < |rest| && i != j
      ensures Differ(rest, i, j)
    {
      assert Differ(spine, if i < k then i else i + 1, if j < k then j else j + 1);
    }
    forall i, j | 0 <= i < |gone| && 0 <= j < |gone| && i != j
      ensures Differ(gone, i, j)
    {
      assert i < |freed| && j < |freed| ==> Differ(freed, i, j);
    }
    forall n | n in rest || n in gone || n in made
      ensures Booked(made, rest, gone, n)
    {
      assert n in spine || n in freed || n in made;
      assert Booked(made, spine, freed, n);
    }
  }

  /** Taking one position out takes exactly that node out. */
  lemma WithoutNode<T>(spine: seq<Node<T>>, k: nat)
    requires NoDuplicates(spine) && k < |spine|
    ensures forall n :: n in Without(spine, k) <==> n in spine && n != spine[k]
  {
    var rest := Without(spine, k);
    forall i | 0 <= i < |rest|
      ensures rest[i] in spine && rest[i] != spine[k]
    {
      assert Differ(spine, if i < k then i else i + 1, k);
    }
    forall n | n in spine && n != spine[k]
      ensures n in rest
    {
      var j :| 0 <= j < |spine| && spine[j] == n;
      assert rest[if j < k then j else j - 1] == n;
    }
  }

  function NodeAt<T>(nodes: seq<Node<T>>, i: int): Node?<T> {
    if 0 <= i < |nodes| then nodes[i] else null
  }

  /** Node `i` is tied to its neighbours; the first node's `prev` is left open. */
  ghost predicate LinkedAt<T>(nodes: seq<Node<T>>, i: nat)
    requires i < |nodes|
    reads nodes[i]
  {
    nodes[i].next == NodeAt(nodes, i + 1) && (0 < i ==> nodes[i].prev == nodes[i - 1])
  }

  /** `next` leads through `nodes` and ends; `prev` leads back to the first. */
  ghost predicate Chained<T>(nodes: seq<Node<T>>)
    reads nodes
  {
    forall i :: 0 <= i < |nodes| ==> LinkedAt(nodes, i)
  }

  /** Node `i` of nodes that go round in both directions. */
  ghost predicate RoundAt<T>(nodes: seq<Node<T>>, i: nat)
    requires i < |nodes|
    reads nodes[i]
  {
    && nodes[i].next == nodes[if i + 1 < |nodes| then i + 1 else 0]
    && nodes[i].prev == nodes[if 0 < i then i - 1 else |nodes| - 1]
  }

  /** Neither `next` nor `prev` ever ends. */
  ghost predicate Round<T>(nodes: seq<Node<T>>)
    reads nodes
  {
    nodes != [] && forall i :: 0 <= i < |nodes| ==> RoundAt(nodes, i)
  }

  /** The `prev` and `next` links of some nodes at one moment. */
  datatype Links<T> = Links(prev: seq<Node?<T>>, next: seq<Node?<T>>)

  ghost function LinksOf<T>(nodes: seq<Node<T>>): (l: Links<T>)
    reads nodes
    ensures |l.prev| == |l.next| == |nodes|
    ensures forall i :: 0 <= i < |nodes| ==> l.prev[i] == nodes[i].prev && l.next[i] == nodes[i].next
  {
    Links(seq(|nodes|, i requires 0 <= i < |nodes| reads nodes => nodes[i].prev),
          seq(|nodes|, i requires 0 <= i < |nodes| reads nodes => nodes[i].next))
  }

  ghost predicate WasLinkedAt<T>(nodes: seq<Node<T>>, l: Links<T>, i: nat)
    requires |l.prev| == |l.next| == |nodes| && i < |nodes|
  {
    l.next[i] == NodeAt(nodes, i + 1) && (0 < i ==> l.prev[i] == nodes[i - 1])
  }

  /** The links were chained, all but the first `prev`. */
  ghost predicate WereChained<T>(nodes: seq<Node<T>>, l: Links<T>) {
    && |l.prev| == |l.next| == |nodes|
    && forall i :: 0 <= i < |nodes| ==> WasLinkedAt(nodes, l, i)
  }

  ghost predicate WasRoundAt<T>(nodes: seq<Node<T>>, l: Links<T>, i: nat)
    requires |l.prev| == |l.next| == |nodes| && i < |nodes|
  {
    && l.next[i] == nodes[if i + 1 < |nodes| then i + 1 else 0]
    && l.prev[i] == nodes[if 0 < i then i - 1 else |nodes| - 1]
  }

  ghost predicate WereRound<T>(nodes: seq<Node<T>>, l: Links<T>) {
    && |l.prev| == |l.next| == |nodes|
    && forall i :: 0 <= i < |nodes| ==> WasRoundAt(nodes, l, i)
  }

  ghost predicate UnlinkedAt<T>(nodes: seq<Node<T>>, l: Links<T>, k: nat, i: nat)
    requires |l.prev| == |l.next| == |nodes| && k < |nodes| && i < |nodes|
    reads nodes[i]
  {
    && nodes[i].next == (if nodes[i] == l.prev[k] then l.next[k] else l.next[i])
    && nodes[i].prev == (if nodes[i] == l.next[k] then l.prev[k] else l.prev[i])
  }

  /** What unlinking node `k` leaves of the links of the other nodes. */
  ghost predicate Unlinked<T>(nodes: seq<Node<T>>, l: Links<T>, k: nat)
    requires |l.prev| == |l.next| == |nodes| && k < |nodes|
    reads nodes
  {
    forall i :: 0 <= i < |nodes| && i != k ==> UnlinkedAt(nodes, l, k, i)
  }

  /** Unlinking from a chain leaves a chain, unless the first node goes and had a predecessor. */
  lemma UnlinkedIsChained<T>(nodes: seq<Node<T>>, l: Links<T>, k: nat)
    requires NoDuplicates(nodes) && k < |nodes| && WereChained(nodes, l) && Unlinked(nodes, l, k)
    requires k > 0 || l.prev[0] == null
    ensures Chained(Without(nodes, k))
    ensures |nodes| > 1 ==> Without(nodes, k)[0].prev == l.prev[0]
  {
    var rest := Without(nodes, k);
    assert WasLinkedAt(nodes, l, k);
    forall i | 0 <= i < |rest|
      ensures LinkedAt(rest, i)
    {
      UnlinkedNode(nodes, l, k, if i < k then i else i + 1);
    }
    if |nodes| > 1 {
      UnlinkedNode(nodes, l, k, if k == 0 then 1 else 0);
    }
  }

  /** The links of one node that stays. */
  lemma UnlinkedNode<T>(nodes: seq<Node<T>>, l: Links<T>, k: nat, o: nat)
    requires NoDuplicates(nodes) && k < |nodes| && o < |nodes| && o != k
    requires WereChained(nodes, l) && Unlinked(nodes, l, k)
    requires k > 0 || l.prev[0] == null
    ensures nodes[o].next == if o + 1 == k then NodeAt(nodes, k + 1) else NodeAt(nodes, o + 1)
    ensures k == 0 && o == 1 ==> nodes[o].prev == null
    ensures k > 0 && o == k + 1 ==> nodes[o].prev == nodes[k - 1]
    ensures o != k + 1 ==> nodes[o].prev == l.prev[o] && (o > 0 ==> nodes[o].prev == nodes[o - 1])
    ensures k == 0 && o > 1 ==> nodes[o].prev == nodes[o - 1]
  {
    assert UnlinkedAt(nodes, l, k, o) && WasLinkedAt(nodes, l, o) && WasLinkedAt(nodes, l, k);
    assert 0 < k && o != k - 1 ==> Differ(nodes, o, k - 1);
    assert k + 1 < |nodes| && o != k + 1 ==> Differ(nodes, o, k + 1);
  }

  /** Unlinking the first node of a chain when its `prev` leads to the last one makes the rest go round. */
  lemma UnlinkedGoesRound<T>(nodes: seq<Node<T>>, l: Links<T>)
    requires NoDuplicates(nodes) && |nodes| > 1 && WereChained(nodes, l) && Unlinked(nodes, l, 0)
    requires l.prev[0] == nodes[|nodes| - 1]
    ensures Round(Without(nodes, 0))
  {
    var rest := Without(nodes, 0);
    assert WasLinkedAt(nodes, l, 0);
    forall i | 0 <= i < |rest|
      ensures RoundAt(rest, i)
    {
      assert UnlinkedAt(nodes, l, 0, i + 1) && WasLinkedAt(nodes, l, i + 1);
      assert i + 1 != |nodes| - 1 ==> Differ(nodes, i + 1, |nodes| - 1);
      assert i + 1 != 1 ==> Differ(nodes, i + 1, 1);
    }
  }

  /** Unlinking from nodes that go round leaves nodes that go round. */
  lemma UnlinkedStaysRound<T>(nodes: seq<Node<T>>, l: Links<T>, k: nat)
    requires NoDuplicates(nodes) && k < |nodes| && |nodes| > 1 && WereRound(nodes, l) && Unlinked(nodes, l, k)
    ensures Round(Without(nodes, k))
  {
    var rest, n := Without(nodes, k), |nodes|;
    var before, behind := if k > 0 then k - 1 else n - 1, if k + 1 < n then k + 1 else 0;
    assert WasRoundAt(nodes, l, k);
    forall i | 0 <= i < |rest|
      ensures RoundAt(rest, i)
    {
      var o := if i < k then i else i + 1;
      assert UnlinkedAt(nodes, l, k, o) && WasRoundAt(nodes, l, o);
      assert o != before ==> Differ(nodes, o, before);
      assert o != behind ==> Differ(nodes, o, behind);
    }
  }

  /** A count as an `unsigned int` shows it. */
  function Low32(n: nat): (r: nat)
    ensures r < U32_SPAN && (n < U32_SPAN ==> r == n)
  {
    if n < U32_SPAN then n else Low32(n - U32_SPAN)
  }

  lemma {:induction false} Low32IsRemainder(n: nat)
    ensures Low32(n) == n % U32_SPAN
  {
    if n < U32_SPAN {
    } else {
      Low32IsRemainder(n - U32_SPAN);
    }
  }

  lemma {:induction false} Low32AtMost(n: nat)
    ensures Low32(n) <= n
  {
    if n < U32_SPAN {
    } else {
      Low32AtMost(n - U32_SPAN);
    }
  }

  /** `++x` on an `unsigned int`. */
  function Increment(x: nat): nat {
    if x + 1 == U32_SPAN then 0 else x + 1
  }

  /** `--x` on an `unsigned int`. */
  function Decrement(x: nat): nat {
    if x == 0 then U32_SPAN - 1 else x - 1
  }

  /** Counting up and down in an `unsigned int` follows the true count. */
  lemma CountsFollow(n: nat)
    ensures Increment(Low32(n)) == Low32(n + 1)
    ensures Decrement(Low32(n + 1)) == Low32(n)
  {
    Low32IsRemainder(n);
    Low32IsRemainder(n + 1);
  }

  // ------------------------------------------------------------------ lists as sequences

  /** Where `prev` of the first node leads: nowhere, to the last node, or to a freed one. */
  datatype Shape = Clean | Tied | Stale

  datatype Op<!T> = AddLast(value: T) | TakeFirst | TakeLast | DropAt(index: nat) | DropEq(eq: T -> int)

  /**
   What a call makes of a list: another one; nodes that go round; a write to a freed node; or a list
   without nodes whose tail is a freed one.
   */
  datatype Result<T> = Fine(values: seq<T>, shape: Shape) | GoesRound | WritesFreed | TailFreed

  function Cut<T>(values: seq<T>, k: nat): seq<T>
    requires k < |values|
  {
    values[..k] + values[k + 1..]
  }

  function Stay<T>(values: seq<T>, eq: T -> int): seq<T> {
    if values == [] then []
    else (if eq(values[0]) == 1 then [] else [values[0]]) + Stay(values[1..], eq)
  }

  /** The shape of a list after its last node, or not its last node, went. */
  function LastGone(shape: Shape, gone: bool): Shape {
    if shape == Tied && gone then Stale else shape
  }

  function Called<T>(values: seq<T>, shape: Shape, op: Op<T>): Result<T> {
    var n := |values|;
    match op
    case AddLast(value) => Fine(values + [value], if n == 0 then Clean else Tied)
    case TakeFirst => Fine(if n == 0 then [] else values[1..], Clean)
    case TakeLast =>
      if n == 0 then Fine(values, shape)
      else if n == 1 && shape != Clean then TailFreed
      else Fine(values[..n - 1], LastGone(shape, true))
    case DropAt(index) =>
      if index >= n then Fine(values, shape)
      else if index == 0 && shape == Tied then GoesRound
      else if index == 0 && shape == Stale then WritesFreed
      else Fine(Cut(values, index), LastGone(shape, index == n - 1))
    case DropEq(eq) =>
      if n == 0 then Fine(values, shape)
      else if eq(values[0]) == 1 && shape == Tied then GoesRound
      else if eq(values[0]) == 1 && shape == Stale then WritesFreed
      else Fine(Stay(values, eq), LastGone(shape, eq(values[n - 1]) == 1))
  }

  /** How far a run of calls gets: to its end, or to the first call that breaks the list. */
  datatype Stop<T> = Stop(at: nat, values: seq<T>, shape: Shape)

  function Played<T>(values: seq<T>, shape: Shape, ops: seq<Op<T>>, i: nat): (s: Stop<T>)
    requires i <= |ops|
    ensures i <= s.at <= |ops|
    ensures s.at < |ops| ==> !Called(s.values, s.shape, ops[s.at]).Fine?
    decreases |ops| - i
  {
    if i == |ops| then Stop(i, values, shape)
    else match Called(values, shape, ops[i])
      case Fine(next, after) => Played(next, after, ops, i + 1)
      case _ => Stop(i, values, shape)
  }

  /** Additions and front removals never break a list, whatever its shape. */
  lemma {:induction false} QueueUseNeverBreaks<T>(values: seq<T>, shape: Shape, ops: seq<Op<T>>, i: nat)
    requires i <= |ops| && forall j :: i <= j < |ops| ==> ops[j].AddLast? || ops[j].TakeFirst?
    ensures Played(values, shape, ops, i).at == |ops|
    decreases |ops| - i
  {
    if i == |ops| {
    } else {
      var r := Called(values, shape, ops[i]);
      assert ops[i].AddLast? || ops[i].TakeFirst?;
      QueueUseNeverBreaks(r.values, r.shape, ops, i + 1);
    }
  }

  /** Stack use does at once: after two additions the second removal from the end leaves a freed tail. */
  lemma StackUseBreaks<T>(a: T, b: T, more: seq<Op<T>>)
    ensures var s := Played([], Clean, [AddLast(a), AddLast(b), TakeLast, TakeLast] + more, 0);
            s == Stop(3, [a], Stale) && Called(s.values, s.shape, TakeLast) == TailFreed
  {
    var ops := [AddLast(a), AddLast(b), TakeLast, TakeLast] + more;
    assert ops[0] == AddLast(a) && ops[1] == AddLast(b) && ops[2] == TakeLast && ops[3] == TakeLast;
    assert Called([], Clean, ops[0]) == Fine([a], Clean);
    assert Called([a], Clean, ops[1]) == Fine([a, b], Tied);
    assert Called([a, b], Tied, ops[2]) == Fine([a], Stale);
    assert Played([a], Stale, ops, 3) == Stop(3, [a], Stale);
    assert Played([a, b], Tied, ops, 2) == Played([a], Stale, ops, 3);
    assert Played([a], Clean, ops, 1) == Played([a, b], Tied, ops, 2);
  }

  lemma ValuesWithout<T>(nodes: seq<Node<T>>, k: nat)
    requires k < |nodes|
    ensures ValuesOf(Without(nodes, k)) == Cut(ValuesOf(nodes), k)
    ensures k == 0 ==> ValuesOf(Without(nodes, k)) == ValuesOf(nodes)[1..]
    ensures k == |nodes| - 1 ==> ValuesOf(Without(nodes, k)) == ValuesOf(nodes)[..k]
  {
  }

  lemma {:induction false} ValuesKept<T>(nodes: seq<Node<T>>, j: nat, eq: T -> int)
    requires j <= |nodes|
    ensures ValuesOf(KeptFrom(nodes, j, eq)) == Stay(ValuesOf(nodes)[j..], eq)
    decreases |nodes| - j
  {
    if j == |nodes| {
    } else {
      ValuesKept(nodes, j + 1, eq);
      var rest := KeptFrom(nodes, j + 1, eq);
      assert ValuesOf(nodes)[j..][1..] == ValuesOf(nodes)[j + 1..];
      assert ValuesOf([nodes[j]] + rest) == [nodes[j].value] + ValuesOf(rest);
      assert [] + rest == rest;
    }
  }

  class List<T> {
    var head: Node?<T>
    var tail: Node?<T>
    var size: nat
    const freesValues: bool

    // The nodes reached from `head` by `next`; the nodes given back to the allocator and the
    // values given to the free function, in the order they were; every node ever allocated.
    ghost var spine: seq<Node<T>>
    ghost var freed: seq<Node<T>>
    ghost var released: seq<T>
    ghost var made: set<Node<T>>

    ghost predicate Accounted()
      reads this
    {
      Ledger(made, spine, freed)
    }

    /** Everything that a walk along `next` relies on; `prev` of the first node is left open. */
    ghost predicate Forward()
      reads this, spine
    {
      && Accounted() && Chained(spine)
      && head == NodeAt(spine, 0) && tail == NodeAt(spine, |spine| - 1)
      && size == Low32(|spine|)
    }

    ghost predicate Valid()
      reads this, spine
    {
      Forward() && (spine != [] ==> spine[0].prev == null || (2 <= |spine| && spine[0].prev == tail))
    }

    ghost predicate Tight()
      reads this, spine
    {
      Forward() && (spine != [] ==> spine[0].prev == null)
    }

    /** A list whose first node still points at a node that was freed. */
    ghost predicate Dangling()
      reads this, spine
    {
      Forward() && spine != [] && spine[0].prev != null && spine[0].prev in freed
    }

    /** What the operations leave of a list as long as walks along `next` work. */
    ghost predicate Reached()
      reads this, spine
    {
      Valid() || Dangling()
    }

    /** What is left of a list once `next` of its last node leads back to the first. */
    ghost predicate Ring()
      reads this, spine
    {
      && Accounted() && Round(spine)
      && head == NodeAt(spine, 0) && tail == NodeAt(spine, |spine| - 1)
      && size == Low32(|spine|)
    }

    /** `remove_elt` on node `k` writes to nodes of the list only. */
    ghost predicate Removable(k: nat)
      reads this, spine
    {
      k == 0 && spine != [] ==> spine[0].prev == null || (2 <= |spine| && spine[0].prev == tail)
    }

    constructor (freesValues: bool)
      ensures Tight() && spine == [] && freed == [] && released == [] && made == {}
      ensures this.freesValues == freesValues
    {
      head, tail, size := null, null, 0;
      this.freesValues := freesValues;
      spine, freed, released, made := [], [], [], {};
    }

    lemma IsMade(i: nat)
      requires Accounted() && i < |spine|
      ensures spine[i] in made && spine[i] !in freed
    {
      assert spine[i] in spine;
      assert Booked(made, spine, freed, spine[i]);
    }

    /**
     `free` on a node.  It must not have been freed before, nothing is known of its fields
     afterwards, and no other node is touched.
     */
    method FreeNode(elt: Node<T>, ghost k: nat)
      requires Accounted() && k < |spine| && spine[k] == elt
      modifies this`freed, this`spine, elt
      ensures Accounted() && elt !in old(freed) && elt !in spine
      ensures spine == Without(old(spine), k) && freed == old(freed) + [elt]
      ensures forall i :: 0 <= i < |spine| ==> (LinkedAt(spine, i) <==> old(LinkedAt(Without(spine, k), i)))
      ensures spine != [] ==> spine[0].prev == old(Without(spine, k)[0].prev)
    {
      LedgerFree(made, spine, freed, k);
      spine := Without(spine, k);
      freed := freed + [elt];
      forall i | 0 <= i < |spine|
        ensures spine[i] != elt
      {
        assert spine[i] in spine;
      }
      elt.prev, elt.next := *, *;
    }

    /** Adding also repairs a first `prev` link that was left dangling. */
    method Add(value: T)
      requires Forward()
      modifies this, made
      ensures Valid() && (Tight() <==> |spine| == 1)
      ensures tail != null && fresh(tail) && tail.value == value && made == old(made) + {tail}
      ensures spine == old(spine) + [tail]
      ensures freed == old(freed) && released == old(released)
    {
      ghost var s0 := spine;
      var elt := new Node(value, tail);
      if tail != null {
        IsMade(0);
        IsMade(|spine| - 1);
        tail.next := elt;
        head.prev := elt;
      } else {
        head := elt;
      }
      tail := elt;
      CountsFollow(|spine|);
      size := Increment(size);
      LedgerAdd(made, spine, freed, elt);
      spine := spine + [elt];
      made := made + {elt};
      forall i | 0 <= i < |spine|
        ensures LinkedAt(spine, i)
      {
        if i < |s0| {
          assert old(LinkedAt(s0, i));
          assert 0 < i ==> Differ(s0, i, 0);
          assert i < |s0| - 1 ==> Differ(s0, i, |s0| - 1);
        }
      }
    }

    method Get(index: nat) returns (r: Option<T>)
      requires Forward() && index < U32_SPAN
      ensures r == if index < |spine| then Some(spine[index].value) else None
    {
      var elt := head;
      var i := 0;
      while elt != null
        invariant i <= index && i <= |spine| && elt == NodeAt(spine, i)
        decreases |spine| - i
      {
        assert LinkedAt(spine, i);
        if i == index {
          return Some(elt.value);
        }
        elt := elt.next;
        i := Increment(i);
      }
      return None;
    }

    /**
     The last value always comes back.  A list stays sound exactly when its first node had no
     predecessor; otherwise the `prev` link of that node is left pointing at the freed one.  Walks
     along `next` still work then, but removing the one node left takes its `prev` for the tail.
     */
    method PopTail() returns (r: Option<T>)
      requires Forward()
      modifies this, made
      ensures Accounted() && made == old(made) && released == old(released)
      ensures old(spine) == [] ==> r == None && Tight() && spine == [] && freed == old(freed)
      ensures old(spine) != [] ==>
                && r == Some(old(spine)[|old(spine)| - 1].value)
                && spine == Without(old(spine), |old(spine)| - 1)
                && freed == old(freed) + [old(tail)]
      ensures Tight() == old(Tight())
      ensures Forward() == (old(Tight()) || |old(spine)| != 1)
      ensures old(Valid()) ==> Valid() == old(Tight())
      ensures old(Valid()) && !Valid() ==> spine != [] && head == spine[0] && head.prev in freed
      ensures old(Reached()) && Forward() ==> Reached()
      ensures old(Dangling()) && Forward() && spine != [] ==> Dangling()
      ensures old(Reached()) && !Forward() ==> head == null && tail != null && tail in freed
    {
      if tail == null {
        return None;
      }
      ghost var n := |spine| - 1;
      assert LinkedAt(spine, n);
      assert 0 < n ==> Differ(spine, 0, n);
      IsMade(n);
      if 0 < n {
        IsMade(n - 1);
      }
      var t := tail;
      var value := t.value;
      if t == head {
        tail, head, size := null, null, 0;
      } else {
        t.prev.next := null;
        CountsFollow(n);
        size := Decrement(size);
      }
      tail := t.prev;
      ghost var rest := Without(spine, n);
      forall i | 0 <= i < n
        ensures LinkedAt(rest, i)
      {
        assert old(LinkedAt(spine, i));
        assert i < n - 1 ==> Differ(spine, i, n - 1);
      }
      FreeNode(t, n);
      return Some(value);
    }

    /** The first value comes back, and whatever the list was, it is tight afterwards. */
    method PopFront() returns (r: Option<T>)
      requires Forward()
      modifies this, made
      ensures Tight() && made == old(made) && released == old(released)
      ensures old(spine) == [] ==> r == None && spine == [] && freed == old(freed)
      ensures old(spine) != [] ==>
                && r == Some(old(spine)[0].value)
                && spine == Without(old(spine), 0)
                && freed == old(freed) + [old(head)]
    {
      if head == null {
        return None;
      }
      assert LinkedAt(spine, 0);
      assert 1 < |spine| ==> Differ(spine, 0, |spine| - 1) && Differ(spine, 0, 1);
      IsMade(0);
      if 1 < |spine| {
        IsMade(1);
      }
      var h := head;
      var value := h.value;
      if h == tail {
        head, tail, size := null, null, 0;
      } else {
        h.next.prev := null;
        CountsFollow(|spine| - 1);
        size := Decrement(size);
      }
      head := h.next;
      ghost var rest := Without(spine, 0);
      forall i | 0 <= i < |rest|
        ensures LinkedAt(rest, i)
      {
        assert old(LinkedAt(spine, i + 1));
        assert 0 < i ==> Differ(spine, i + 1, 1);
      }
      FreeNode(h, 0);
      return Some(value);
    }

    /** The pointer updates of a removal, before the node is freed. */
    method Detach(elt: Node<T>, ghost k: nat, ghost l: Links<T>)
      requires Accounted() && k < |spine| && spine[k] == elt && l == LinksOf(spine)
      requires elt.prev == null || elt.prev in spine
      requires elt.next == null || elt.next in spine
      modifies this`head, this`tail, made
      ensures Unlinked(spine, l, k)
      ensures head == if old(head) == elt then l.next[k] else old(head)
      ensures tail == if old(tail) == elt then l.prev[k] else old(tail)
    {
      assert elt.prev != null ==> Booked(made, spine, freed, elt.prev);
      assert elt.next != null ==> Booked(made, spine, freed, elt.next);
      if elt.prev != null {
        elt.prev.next := elt.next;
      }
      if elt.next != null {
        elt.next.prev := elt.prev;
      }
      if head == elt {
        head := elt.next;
      }
      if tail == elt {
        tail := elt.prev;
      }
      forall i | 0 <= i < |spine| && i != k
        ensures UnlinkedAt(spine, l, k, i)
      {
        assert spine[i] in spine;
      }
    }

    /** `remove_elt` on whatever links there are. */
    method Unlink(elt: Node<T>, ghost k: nat, ghost l: Links<T>)
      requires Accounted() && k < |spine| && spine[k] == elt && size == Low32(|spine|)
      requires l == LinksOf(spine)
      requires elt.prev == null || elt.prev in spine
      requires elt.next == null || elt.next in spine
      modifies this, made
      ensures Accounted() && made == old(made) && spine == Without(old(spine), k)
      ensures freed == old(freed) + [elt] && elt !in old(freed) && elt !in spine
      ensures released == if freesValues then old(released) + [elt.value] else old(released)
      ensures size == Low32(|spine|)
      ensures Unlinked(old(spine), l, k)
      ensures head == if old(head) == elt then l.next[k] else old(head)
      ensures tail == if old(tail) == elt then l.prev[k] else old(tail)
    {
      ghost var s0 := spine;
      Detach(elt, k, l);
      if freesValues {
        released := released + [elt.value];
      }
      assert forall i :: 0 <= i < |s0| && i != k ==> UnlinkedAt(s0, l, k, i);
      IsMade(k);
      FreeNode(elt, k);
      forall i | 0 <= i < |s0| && i != k
        ensures UnlinkedAt(s0, l, k, i)
      {
        assert Differ(s0, i, k);
      }
      CountsFollow(|spine|);
      size := Decrement(size);
    }

    /**
     From the lists that operations leave: `remove_elt` on node `k` keeps to nodes of the list exactly
     when it is not the first one or has no freed predecessor, and otherwise it writes to that one.
     */
    lemma RemovableExactly(k: nat)
      requires Reached() && k < |spine|
      ensures Removable(k) <==> k > 0 || spine[0].prev == null || spine[0].prev !in freed
      ensures Removable(k) <==>
                && (spine[k].prev == null || spine[k].prev in spine)
                && (spine[k].next == null || spine[k].next in spine)
      ensures !Removable(k) ==> spine[k].prev != null && spine[k].prev in freed
    {
      assert LinkedAt(spine, k);
      IsMade(|spine| - 1);
      if Dangling() {
        assert Booked(made, spine, freed, spine[0].prev);
      }
    }

    lemma LinksWere(l: Links<T>, k: nat)
      requires Forward() && l == LinksOf(spine) && k < |spine|
      ensures NoDuplicates(spine) && WereChained(spine, l) && LinkedAt(spine, k)
      ensures l.prev[k] == null || l.prev[k] in spine || k == 0
      ensures l.next[k] == null || l.next[k] in spine
    {
      assert LinkedAt(spine, k);
      forall i | 0 <= i < |spine|
        ensures WasLinkedAt(spine, l, i)
      {
        assert LinkedAt(spine, i);
      }
    }

    /**
     Unlinks and frees one node.  A walk along `next` still works afterwards unless the first node
     went and had a predecessor: then `next` and `prev` go round.  The list stays sound exactly when
     its first node had no predecessor or the node was neither the first nor the last; removing the
     last node otherwise leaves the first one pointing at a freed node.
     */
    method RemoveElt(elt: Node<T>, ghost k: nat)
      requires Forward() && k < |spine| && spine[k] == elt && Removable(k)
      modifies this, made
      ensures Accounted() && made == old(made) && spine == Without(old(spine), k)
      ensures freed == old(freed) + [elt]
      ensures released == if freesValues then old(released) + [elt.value] else old(released)
      ensures Tight() == old(Tight())
      ensures Forward() == (old(Tight()) || k > 0)
      ensures !Forward() ==> Ring()
      ensures old(Valid()) ==> Valid() == (old(Tight()) || 0 < k < |old(spine)| - 1)
      ensures old(Valid()) && !Valid() && k > 0 ==> spine != [] && head == spine[0] && head.prev == elt
      ensures k > 0 ==> head == spine[0] && head.prev == old(head.prev)
      ensures old(Reached()) && Forward() ==> Reached()
      ensures old(Dangling()) && Forward() ==> Dangling()
    {
      ghost var s0, l, first, last := spine, LinksOf(spine), head, tail;
      LinksWere(l, k);
      Unlink(elt, k, l);
      if k > 0 || l.prev[0] == null {
        StillForward(s0, l, k, first, last);
      } else {
        NowRound(s0, l, first, last);
      }
    }

    /** A removal that leaves a chain: whether the list is sound. */
    lemma StillForward(s0: seq<Node<T>>, l: Links<T>, k: nat, first: Node?<T>, last: Node?<T>)
      requires Accounted() && size == Low32(|spine|) && NoDuplicates(s0)
      requires k < |s0| && spine == Without(s0, k)
      requires WereChained(s0, l) && Unlinked(s0, l, k) && (k > 0 || l.prev[0] == null)
      requires first == s0[0] && head == if first == s0[k] then l.next[k] else first
      requires last == s0[|s0| - 1] && tail == if last == s0[k] then l.prev[k] else last
      ensures Forward() && (spine != [] ==> spine[0].prev == l.prev[0])
    {
      assert WasLinkedAt(s0, l, k);
      assert k > 0 ==> Differ(s0, 0, k);
      assert k < |s0| - 1 ==> Differ(s0, |s0| - 1, k);
      UnlinkedIsChained(s0, l, k);
    }

    /** ... and one that does not: the first node went and had a predecessor. */
    lemma NowRound(s0: seq<Node<T>>, l: Links<T>, first: Node?<T>, last: Node?<T>)
      requires Accounted() && size == Low32(|spine|) && NoDuplicates(s0)
      requires |s0| > 1 && spine == Without(s0, 0)
      requires WereChained(s0, l) && Unlinked(s0, l, 0) && l.prev[0] == s0[|s0| - 1]
      requires first == s0[0] && head == if first == s0[0] then l.next[0] else first
      requires last == s0[|s0| - 1] && tail == if last == s0[0] then l.prev[0] else last
      ensures Ring() && !Forward()
    {
      assert WasLinkedAt(s0, l, 0) && Differ(s0, 0, |s0| - 1);
      UnlinkedGoesRound(s0, l);
      assert RoundAt(spine, |spine| - 1) && !LinkedAt(spine, |spine| - 1);
    }

    method RemoveAt(index: nat) returns (removed: bool)
      requires Forward() && index < U32_SPAN && Removable(index)
      modifies this, made
      ensures Accounted() && made == old(made)
      ensures removed <==> index < |old(spine)|
      ensures !removed ==> spine == old(spine)
      ensures !removed ==> freed == old(freed) && released == old(released)
      ensures removed ==> spine == Without(old(spine), index)
      ensures removed ==> freed == old(freed) + [old(spine)[index]]
      ensures removed ==>
                released == old(released) + (if freesValues then [old(spine)[index].value] else [])
      ensures Tight() == old(Tight())
      ensures Forward() == (old(Tight()) || index > 0)
      ensures !Forward() ==> Ring()
      ensures old(Valid()) ==>
                Valid() == (old(Tight()) || index >= |old(spine)| || 0 < index < |old(spine)| - 1)
      ensures old(Valid()) && !Valid() && index > 0 ==> head != null && head.prev in freed
      ensures old(Reached()) && Forward() ==> Reached()
      ensures old(Dangling()) && Forward() ==> Dangling()
    {
      var elt := head;
      var i := 0;
      while elt != null
        invariant i <= index && i <= |spine| && elt == NodeAt(spine, i)
        decreases |spine| - i
      {
        assert LinkedAt(spine, i);
        if i == index {
          RemoveElt(elt, i);
          return true;
        }
        elt := elt.next;
        i := Increment(i);
      }
      return false;
    }

    /** Hands every value, first to last, to a callback with its position. */
    method ForEach() returns (calls: seq<(nat, T)>)
      requires Forward()
      ensures |calls| == |spine|
      ensures forall k {:trigger calls[k]} :: 0 <= k < |spine| ==> calls[k] == (Low32(k), spine[k].value)
    {
      calls := [];
      var current := head;
      var i := 0;
      while current != null
        invariant |calls| <= |spine| && i == Low32(|calls|)
        invariant current == NodeAt(spine, |calls|)
        invariant forall k {:trigger calls[k]} :: 0 <= k < |calls| ==> calls[k] == (Low32(k), spine[k].value)
        decreases |spine| - |calls|
      {
        assert LinkedAt(spine, |calls|);
        calls := calls + [(i, current.value)];
        current := current.next;
        CountsFollow(|calls| - 1);
        i := Increment(i);
      }
    }

    /** Hands every value, last to first, to a callback with its position. */
    method ForEachRev() returns (calls: seq<(nat, T)>)
      requires Tight()
      ensures |calls| == |spine|
      ensures forall k {:trigger calls[k]} :: 0 <= k < |spine| ==>
                calls[k] == (Low32(|spine| - 1 - k), spine[|spine| - 1 - k].value)
    {
      calls := [];
      var current := tail;
      if |spine| > 0 {
        CountsFollow(|spine| - 1);
      }
      var i := Decrement(size);
      while current != null
        invariant |calls| <= |spine| && (|calls| < |spine| ==> i == Low32(|spine| - 1 - |calls|))
        invariant current == NodeAt(spine, |spine| - 1 - |calls|)
        invariant forall k {:trigger calls[k]} :: 0 <= k < |calls| ==>
                    calls[k] == (Low32(|spine| - 1 - k), spine[|spine| - 1 - k].value)
        decreases |spine| - |calls|
      {
        assert LinkedAt(spine, |spine| - 1 - |calls|);
        calls := calls + [(i, current.value)];
        current := current.prev;
        if |calls| < |spine| {
          CountsFollow(|spine| - 1 - |calls|);
        }
        i := Decrement(i);
      }
    }

    /** The node `ForEachRev` looks at after `k` rounds. */
    ghost function Back(k: nat): (p: Node?<T>)
      requires Valid()
      reads this, spine
      ensures p != null ==> p in spine
    {
      if k == 0 then tail
      else if Back(k - 1) == null then null
      else
        assert exists j :: 0 <= j < |spine| && spine[j] == Back(k - 1) && LinkedAt(spine, j);
        Back(k - 1).prev
    }

    method Size() returns (n: nat)
      requires Forward()
      ensures n == Low32(|spine|)
      ensures |spine| < U32_SPAN ==> n == |spine|
    {
      return size;
    }

    /** Going on to remove the first value would not come to an end: see `RemoveEqEndsExactly`. */
    ghost predicate RemoveEqEnds(eq: T -> int)
      reads this, spine
    {
      spine == [] || spine[0].prev == null || eq(spine[0].value) != 1
    }

    /**
     Takes out every value `eq` answers 1 for and counts them.  The caller passes a list whose
     first node has no predecessor or whose first value stays.
     */
    method RemoveEq(eq: T -> int) returns (removed: nat)
      requires Forward() && RemoveEqEnds(eq)
      modifies this, made
      ensures Forward() && made == old(made) && spine == Kept(old(spine), eq)
      ensures removed == Low32(|Dropped(old(spine), eq)|)
      ensures freed == old(freed) + Dropped(old(spine), eq)
      ensures released ==
              if freesValues then old(released) + ValuesOf(Dropped(old(spine), eq)) else old(released)
      ensures Tight() == old(Tight())
      ensures old(Valid()) ==> Valid() == (old(Tight()) || eq(old(spine)[|old(spine)| - 1].value) != 1)
      ensures old(Reached()) ==> Reached()
      ensures old(Dangling()) ==> Dangling()
    {
      ghost var s0, j, n := spine, 0, 0;
      ghost var kept: seq<Node<T>> := [];
      ghost var tight, valid, reached, dangling := Tight(), Valid(), Reached(), Dangling();
      ghost var lastStays := spine != [] && eq(spine[|spine| - 1].value) != 1;
      ghost var end := Finish(Removal([], freed, released, 0), s0, 0, eq, freesValues);
      HalfwayStarts(s0);
      var current := head;
      removed := 0;
      while current != null
        invariant j <= |s0| && current == NodeAt(s0, j) && spine == Halfway(kept, s0, j)
        invariant Finish(Removal(kept, freed, released, n), s0, j, eq, freesValues) == end
        invariant removed == Low32(n) && Forward() && made == old(made)
        invariant tight || (j == 0 && eq(s0[0].value) != 1) || kept != []
        invariant Tight() == tight
        invariant valid ==> Valid() == (tight || j < |s0| || lastStays)
        invariant reached ==> Reached()
        invariant dangling ==> Dangling()
        decreases |s0| - j
      {
        var elt: Node<T> := current;
        ghost var before := Removal(kept, freed, released, n);
        HalfwayStep(kept, s0, j);
        CountsFollow(n);
        assert LinkedAt(spine, |kept|);
        var tmp := elt.next;
        if eq(elt.value) == 1 {
          RemoveElt(elt, |kept|);
          removed, n := Increment(removed), n + 1;
        } else {
          kept := kept + [elt];
        }
        assert Removal(kept, freed, released, n) == Advance(before, elt, eq, freesValues);
        j := j + 1;
        current := tmp;
      }
      FinishFilters(Removal([], old(freed), old(released), 0), s0, 0, eq, freesValues);
    }

    lemma RingWas(l: Links<T>, k: nat)
      requires Ring() && l == LinksOf(spine) && k < |spine|
      ensures NoDuplicates(spine) && WereRound(spine, l) && RoundAt(spine, k)
    {
      assert RoundAt(spine, k);
      forall i | 0 <= i < |spine|
        ensures WasRoundAt(spine, l, i)
      {
        assert RoundAt(spine, i);
      }
    }

    /** `remove_elt` in a ring leaves a ring, until the one node left goes: its links lead to itself. */
    method RemoveFromRing(elt: Node<T>, ghost k: nat)
      requires Ring() && k < |spine| && spine[k] == elt
      modifies this, made
      ensures Accounted() && made == old(made) && spine == Without(old(spine), k)
      ensures freed == old(freed) + [elt]
      ensures spine != [] ==> Ring()
    {
      ghost var s0, l, first, last := spine, LinksOf(spine), head, tail;
      RingWas(l, k);
      Unlink(elt, k, l);
      if spine != [] {
        StillRing(s0, l, k, first, last);
      }
    }

    lemma StillRing(s0: seq<Node<T>>, l: Links<T>, k: nat, first: Node?<T>, last: Node?<T>)
      requires Accounted() && size == Low32(|spine|) && NoDuplicates(s0)
      requires k < |s0| && |s0| > 1 && spine == Without(s0, k) && WereRound(s0, l) && Unlinked(s0, l, k)
      requires first == s0[0] && head == if first == s0[k] then l.next[k] else first
      requires last == s0[|s0| - 1] && tail == if last == s0[k] then l.prev[k] else last
      ensures Ring()
    {
      assert WasRoundAt(s0, l, k);
      assert k > 0 ==> Differ(s0, 0, k);
      assert k < |s0| - 1 ==> Differ(s0, |s0| - 1, k);
      UnlinkedStaysRound(s0, l, k);
    }

    /**
     The loop of `RemoveEq`, cut off after some rounds, on a list it must not be called on: its first
     node has a predecessor, the last one, and its first value is to go.  However many rounds there
     are, the loop has not come to its end: it goes on, or is about to look at a node it has freed.
     */
    method RemoveEqNeverEnds(eq: T -> int, rounds: nat) returns (n: nat, current: Node<T>)
      requires Valid() && !Tight() && eq(spine[0].value) == 1
      modifies this, made
      ensures Accounted() && made == old(made)
      ensures n <= rounds && (n == rounds || current in freed)
    {
      ghost var k := 0;
      var dead := false;
      n, current := 0, head;
      while n < rounds && !dead
        invariant n <= rounds && Accounted() && made == old(made)
        invariant !dead ==> k < |spine| && spine[k] == current
        invariant !dead ==> if n == 0 then k == 0 && Valid() && !Tight() && eq(current.value) == 1 else Ring()
        invariant dead ==> current in freed
      {
        var elt := current;
        ghost var s0 := spine;
        assert if n == 0 then LinkedAt(spine, 0) else RoundAt(spine, k);
        var tmp: Node<T> := elt.next;
        if eq(elt.value) == 1 {
          if n == 0 {
            RemoveElt(elt, 0);
          } else {
            RemoveFromRing(elt, k);
          }
          dead := tmp == elt;
          k := if k + 1 < |s0| then k else 0;
        } else {
          k := if k + 1 < |spine| then k + 1 else 0;
        }
        current := tmp;
        n := n + 1;
      }
    }

    /**
     `remove_eq` on any sound list, given some rounds if it needs them: it comes to its end, with the
     filtered list, exactly when the first node has no predecessor or the first value stays.
     */
    method RemoveEqEndsExactly(eq: T -> int, rounds: nat) returns (ended: bool, n: nat, current: Node?<T>)
      requires Valid()
      modifies this, made
      ensures ended <==> old(Tight()) || eq(old(spine)[0].value) != 1
      ensures ended ==> Forward() && spine == Kept(old(spine), eq)
      ensures !ended ==> current != null && (n == rounds || current in freed)
    {
      if head != null && head.prev != null && eq(head.value) == 1 {
        n, current := RemoveEqNeverEnds(eq, rounds);
        return false, n, current;
      }
      var removed := RemoveEq(eq);
      return true, 0, null;
    }

    /** Frees every node, and every value when the list owns them. */
    method Free()
      requires Forward()
      modifies this, made
      ensures Accounted() && made == old(made) && spine == []
      ensures freed == old(freed) + old(spine)
      ensures released ==
              if freesValues then old(released) + ValuesOf(old(spine)) else old(released)
    {
      var current := head;
      while current != null
        invariant current == NodeAt(spine, 0)
        invariant Accounted() && made == old(made) && Chained(spine)
        invariant freed + spine == old(freed) + old(spine)
        invariant freesValues ==> released + ValuesOf(spine) == old(released) + ValuesOf(old(spine))
        invariant !freesValues ==> released == old(released)
        decreases |spine|
      {
        var elt: Node<T> := current;
        ghost var rest := Without(spine, 0);
        WithoutFirst(spine);
        forall p | 0 <= p < |rest|
          ensures LinkedAt(rest, p)
        {
          assert LinkedAt(spine, p + 1);
        }
        PassOver(freed, spine);
        PassOverValue(released, spine);
        assert LinkedAt(spine, 0);
        var tmp := elt.next;
        if freesValues {
          released := released + [elt.value];
        }
        IsMade(0);
        FreeNode(elt, 0);
        current := tmp;
      }
    }

    /**
     No live node points to a freed one: the links of a sound list lead to its own nodes or nowhere,
     and so do those of any list that a walk along `next` goes through, but for the first `prev`.
     */
    lemma LinksAreLive(i: nat)
      requires Forward() && i < |spine|
      ensures spine[i].next != null ==> spine[i].next in spine && spine[i].next !in freed
      ensures (i > 0 || Valid()) && spine[i].prev != null ==> spine[i].prev in spine && spine[i].prev !in freed
    {
      assert LinkedAt(spine, i);
      if i + 1 < |spine| {
        IsMade(i + 1);
      }
      if i > 0 {
        IsMade(i - 1);
      }
      IsMade(|spine| - 1);
    }

    /** A freed predecessor is not the last node. */
    lemma DanglingIsNotValid()
      ensures Dangling() ==> !Valid()
    {
      if Dangling() {
        IsMade(|spine| - 1);
      }
    }

    ghost function ShapeNow(): Shape
      requires Reached()
      reads this, spine
    {
      if Tight() then Clean else if Valid() then Tied else Stale
    }

    /** The next call would break the list: what a caller can see of that in the list's fields. */
    predicate Breaks(op: Op<T>)
      reads this, head
    {
      match op
      case AddLast(_) => false
      case TakeFirst => false
      case TakeLast => head != null && head == tail && head.prev != null
      case DropAt(index) => index == 0 && head != null && head.prev != null
      case DropEq(eq) => head != null && head.prev != null && eq(head.value) == 1
    }

    /** The fields tell exactly. */
    lemma BreaksExactly(op: Op<T>)
      requires Reached()
      ensures Breaks(op) <==> !Called(ValuesOf(spine), ShapeNow(), op).Fine?
    {
      if spine != [] {
        assert head == tail <==> |spine| == 1 by {
          assert |spine| > 1 ==> Differ(spine, 0, |spine| - 1);
        }
      }
    }

    /** One call that does not break the list does to its values and its shape what the sequence shows. */
    method Perform(op: Op<T>)
      requires Reached() && !Breaks(op) && (op.DropAt? ==> op.index < U32_SPAN)
      modifies this, made
      ensures Reached() && old(made) <= made && fresh(made - old(made))
      ensures Fine(ValuesOf(spine), ShapeNow()) == Called(old(ValuesOf(spine)), old(ShapeNow()), op)
    {
      ghost var s0 := spine;
      BreaksExactly(op);
      DanglingIsNotValid();
      match op
      case AddLast(value) =>
        Add(value);
        assert ValuesOf(spine) == ValuesOf(s0) + [value];
      case TakeFirst =>
        var value := PopFront();
        if s0 != [] {
          ValuesWithout(s0, 0);
        }
      case TakeLast =>
        var value := PopTail();
        if s0 != [] {
          ValuesWithout(s0, |s0| - 1);
        }
        DanglingIsNotValid();
      case DropAt(index) =>
        var removed := RemoveAt(index);
        if index < |s0| {
          ValuesWithout(s0, index);
        }
        DanglingIsNotValid();
      case DropEq(eq) =>
        var removed := RemoveEq(eq);
        ValuesKept(s0, 0, eq);
        assert ValuesOf(s0)[0..] == ValuesOf(s0);
        DanglingIsNotValid();
    }

    /** Any run of calls, up to its end or to the first call that would break the list, as the sequences show. */
    method Replay(ops: seq<Op<T>>) returns (done: nat)
      requires Reached()
      requires forall i :: 0 <= i < |ops| && ops[i].DropAt? ==> ops[i].index < U32_SPAN
      modifies this, made
      ensures Reached() && old(made) <= made && fresh(made - old(made))
      ensures Stop(done, ValuesOf(spine), ShapeNow()) == Played(old(ValuesOf(spine)), old(ShapeNow()), ops, 0)
      ensures done < |ops| ==> Breaks(ops[done])
    {
      ghost var end := Played(ValuesOf(spine), ShapeNow(), ops, 0);
      done := 0;
      while done < |ops|
        invariant done <= |ops| && Reached() && old(made) <= made && fresh(made - old(made))
        invariant Played(ValuesOf(spine), ShapeNow(), ops, done) == end
      {
        BreaksExactly(ops[done]);
        if Breaks(ops[done]) {
          return done;
        }
        Perform(ops[done]);
        done := done + 1;
      }
    }

    /** `ForEachRev` would come to an end exactly when the first node has no predecessor. */
    lemma BackwardsEndsIffTight()
      requires Valid()
      ensures (exists k :: Back(k) == null) <==> Tight()
    {
      if Tight() {
        BackReaches(|spine|);
      } else {
        forall k: nat
          ensures Back(k) != null
        {
          BackNeverEnds(k);
        }
      }
    }

    lemma {:induction false} BackReaches(k: nat)
      requires Tight() && k <= |spine|
      ensures Back(k) == NodeAt(spine, |spine| - 1 - k)
    {
      if k == 0 {
      } else {
        BackReaches(k - 1);
        assert LinkedAt(spine, |spine| - k);
      }
    }

    lemma {:induction false} BackNeverEnds(k: nat)
      requires Valid() && !Tight()
      ensures Back(k) != null
    {
      if k == 0 {
      } else {
        BackNeverEnds(k - 1);
        assert Back(k - 1) in spine;
        var j :| 0 <= j < |spine| && spine[j] == Back(k - 1);
        assert LinkedAt(spine, j);
      }
    }
  }

  /**
   Two additions already leave the first node's `prev` pointing at the last one, so removing the
   first of the two leaves one node that follows itself.
   */
  method RemovingTheFirstOfTwoMakesACycle<T>(a: T, b: T) returns (list: List<T>)
    ensures list.head != null && list.head.value == b && list.head.next == list.head
  {
    list := new List(false);
    list.Add(a);
    list.Add(b);
    assert list.head.prev == list.tail;
    var removed := list.RemoveAt(0);
    assert RoundAt(list.spine, 0);
  }

  /** ... and popping the last of the two leaves the other one pointing at a freed node. */
  method PoppingTheLastOfTwoLeavesADanglingLink<T>(a: T, b: T) returns (list: List<T>)
    ensures list.head != null && list.head.value == a && list.head.prev in list.freed
    ensures fresh(list) && fresh(list.made) && list.Dangling() && |list.spine| == 1
  {
    list := new List(false);
    list.Add(a);
    list.Add(b);
    var last := list.PopTail();
  }

  /** ... and removing by value, when the first of the two is to go, is not over after any number of rounds. */
  method RemovingByValueFromTwoDoesNotEnd<T>(a: T, b: T, eq: T -> int, rounds: nat)
    returns (list: List<T>, n: nat, current: Node<T>)
    requires eq(a) == 1
    ensures n == rounds || current in list.freed
  {
    list := new List(false);
    list.Add(a);
    list.Add(b);
    n, current := list.RemoveEqNeverEnds(eq, rounds);
  }

  /** After that, removing the first node would write to the freed one. */
  method PoppingThenRemovingTheFirstWritesToAFreedNode<T>(a: T, b: T) returns (list: List<T>)
    ensures list.Reached() && |list.spine| == 1 && !list.Removable(0)
    ensures list.head != null && list.head.prev != null && list.head.prev in list.freed
  {
    list := PoppingTheLastOfTwoLeavesADanglingLink(a, b);
    list.RemovableExactly(0);
  }

  /** ... and popping once more takes the freed node for the tail of the empty list. */
  method PoppingBothLeavesAFreedTail<T>(a: T, b: T) returns (list: List<T>)
    ensures list.head == null && list.tail != null && list.tail in list.freed
  {
    list := PoppingTheLastOfTwoLeavesADanglingLink(a, b);
    var first := list.PopTail();
  }
}
