/**
 The object heap the list lives in, as an arena: a node's address is its
 index in a sequence of nodes, `new Node(d)` appends a node, and `null` is the
 pointer `Null`. A chain is the sequence of addresses met by following `next`
 links from a pointer until `null`.
 */
module Heaps {
  import opened Drugs

  datatype Ptr = Null | Ref(addr: nat)

  /** `DrugList.Node`: one record and the link to its successor. */
  datatype Node = Node(data: Drug, next: Ptr)

  type Heap = seq<Node>

  predicate InHeap(h: Heap, a: seq<nat>) {
    forall i :: 0 <= i < |a| ==> a[i] < |h|
  }

  predicate Distinct(a: seq<nat>) {
    forall i, j :: 0 <= i < j < |a| ==> a[i] != a[j]
  }

  function First(a: seq<nat>): Ptr {
    if a == [] then Null else Ref(a[0])
  }

  function Last(a: seq<nat>): Ptr {
    if a == [] then Null else Ref(a[|a| - 1])
  }

  /** The pointer that should follow position `i` of the chain `a`. */
  function Succ(a: seq<nat>, i: nat): Ptr
    requires i < |a|
  {
    if i + 1 < |a| then Ref(a[i + 1]) else Null
  }

  /** Following `next` from `p` visits exactly the distinct addresses `a`, in
      order, and then reaches `null`. */
  ghost predicate Chain(h: Heap, p: Ptr, a: seq<nat>) {
    && InHeap(h, a)
    && Distinct(a)
    && p == First(a)
    && (forall i {:trigger h[a[i]]} :: 0 <= i < |a| ==> h[a[i]].next == Succ(a, i))
  }

  /** The records held along a chain. */
  function Data(h: Heap, a: seq<nat>): (r: seq<Drug>)
    requires InHeap(h, a)
    ensures |r| == |a|
  {
    if a == [] then [] else [h[a[0]].data] + Data(h, a[1..])
  }

  /** Position `i` of the records is the record of the node at position `i`
      of the chain. */
  lemma {:induction false} DataAt(h: Heap, a: seq<nat>, i: nat)
    requires InHeap(h, a) && i < |a|
    ensures Data(h, a)[i] == h[a[i]].data
  {
    if i > 0 {
      DataAt(h, a[1..], i - 1);
    }
  }

  /** Two heaps that agree on the records of the nodes along `a` give the
      same records along `a`. */
  lemma {:induction false} DataFrame(h: Heap, h': Heap, a: seq<nat>)
    requires InHeap(h, a) && InHeap(h', a)
    requires forall i :: 0 <= i < |a| ==> h'[a[i]].data == h[a[i]].data
    ensures Data(h', a) == Data(h, a)
  {
    if a != [] {
      assert h'[a[0]].data == h[a[0]].data;
      forall i | 0 <= i < |a| - 1 ensures h'[a[1..][i]].data == h[a[1..][i]].data {
        assert a[1..][i] == a[i + 1];
      }
      DataFrame(h, h', a[1..]);
    }
  }

  /** `x.next = p`. */
  function SetNext(h: Heap, x: nat, p: Ptr): Heap
    requires x < |h|
  {
    h[x := h[x].(next := p)]
  }

  /** The nodes outside `a` are as they were, and the heap did not shrink. */
  ghost predicate FramedBy(h: Heap, h': Heap, a: seq<nat>) {
    && |h| <= |h'|
    && (forall x :: 0 <= x < |h| && x !in a ==> h'[x] == h[x])
  }

  /** `x` can be reached from `p` by following links. */
  ghost predicate Reachable(h: Heap, p: Ptr, x: nat) {
    exists a :: Chain(h, p, a) && x in a
  }

  /** A pointer starts at most one chain: the addresses met from it are
      determined by the heap. */
  lemma {:induction false} ChainUnique(h: Heap, p: Ptr, a: seq<nat>, b: seq<nat>)
    requires Chain(h, p, a) && Chain(h, p, b)
    ensures a == b
  {
    var n := if |a| < |b| then |a| else |b|;
    var i := 0;
    while i < n
      invariant 0 <= i <= n
      invariant forall j :: 0 <= j < i ==> a[j] == b[j]
    {
      if i > 0 {
        assert h[a[i - 1]].next == Succ(a, i - 1) == Ref(a[i]);
        assert h[b[i - 1]].next == Succ(b, i - 1) == Ref(b[i]);
      }
      i := i + 1;
    }
    assert n > 0 ==> h[a[n - 1]].next == Succ(a, n - 1) && h[b[n - 1]].next == Succ(b, n - 1);
  }

  /** An address off the chain from `p` is not reachable from `p` at all. */
  lemma NotReachable(h: Heap, p: Ptr, a: seq<nat>, x: nat)
    requires Chain(h, p, a) && x !in a
    ensures !Reachable(h, p, x)
  {
    if Reachable(h, p, x) {
      var b :| Chain(h, p, b) && x in b;
      ChainUnique(h, p, a, b);
    }
  }

  /** A chain and the records on it survive any change that leaves its own
      nodes alone. */
  lemma ChainFrame(h: Heap, h': Heap, p: Ptr, a: seq<nat>)
    requires Chain(h, p, a)
    requires |h| <= |h'|
    requires forall i :: 0 <= i < |a| ==> h'[a[i]] == h[a[i]]
    ensures Chain(h', p, a)
    ensures Data(h', a) == Data(h, a)
  {
    DataFrame(h, h', a);
  }

  /** No address is on both `a` and `b`. */
  ghost predicate Disjoint(a: seq<nat>, b: seq<nat>) {
    forall i, j :: 0 <= i < |a| && 0 <= j < |b| ==> a[i] != b[j]
  }

  /** A chain survives when nodes off it change, for a change framed by
      addresses disjoint from it. */
  lemma ChainFramedBy(h: Heap, h': Heap, p: Ptr, a: seq<nat>, other: seq<nat>)
    requires Chain(h, p, a)
    requires FramedBy(h, h', other)
    requires Disjoint(a, other)
    ensures Chain(h', p, a)
    ensures Data(h', a) == Data(h, a)
  {
    ChainFrame(h, h', p, a);
  }

  /** Dropping position `k` adds no address. */
  lemma RemoveMembers(a: seq<nat>, k: nat)
    requires k < |a|
    ensures forall x :: x in a[..k] + a[k + 1..] ==> x in a
  {
    assert a == a[..k] + a[k..];
    assert a[k..] == [a[k]] + a[k + 1..];
  }

  /** Only links changed: every node keeps its record. */
  lemma DataOnlyLinks(h: Heap, h': Heap, a: seq<nat>)
    requires |h'| == |h| && InHeap(h, a)
    requires forall x :: 0 <= x < |h| ==> h'[x].data == h[x].data
    ensures Data(h', a) == Data(h, a)
  {
    DataFrame(h, h', a);
  }

  /** The rest of a chain starts at the head's successor. */
  lemma ChainRest(h: Heap, p: Ptr, a: seq<nat>)
    requires Chain(h, p, a) && a != []
    ensures Chain(h, h[a[0]].next, a[1..])
  {
    assert h[a[0]].next == Succ(a, 0);
  }

  /** Pointing the node before position `k` past it unlinks exactly that
      position. */
  lemma ChainSkip(h: Heap, p: Ptr, a: seq<nat>, k: nat)
    requires Chain(h, p, a) && 1 <= k < |a|
    ensures Chain(SetNext(h, a[k - 1], h[a[k]].next), p, a[..k] + a[k + 1..])
  {
    var h' := SetNext(h, a[k - 1], h[a[k]].next);
    var b := a[..k] + a[k + 1..];
    forall i | 0 <= i < |b| ensures h'[b[i]].next == Succ(b, i) {
      if i < k - 1 {
        assert b[i] == a[i] && b[i + 1] == a[i + 1];
      } else if i == k - 1 {
        assert b[i] == a[k - 1];
        assert h[a[k]].next == Succ(a, k);
      } else {
        assert b[i] == a[i + 1];
        assert i + 1 < |b| ==> b[i + 1] == a[i + 2];
      }
    }
  }

  /** Moving the head pointer to the successor drops position 0 of the
      chain and of its records. */
  lemma UnlinkHead(h: Heap, p: Ptr, a: seq<nat>)
    requires Chain(h, p, a) && a != []
    ensures Chain(h, h[a[0]].next, a[..0] + a[1..])
    ensures Data(h, a[..0] + a[1..]) == Data(h, a)[..0] + Data(h, a)[1..]
  {
    ChainRest(h, p, a);
    assert a[..0] + a[1..] == a[1..];
    DataRemove(h, a, 0);
  }

  /** Everything `RemoveMin` needs to know about pointing the node before
      position `k` past it: the chain and its records lose exactly position
      `k`, and no node outside the chain and no record changes. */
  lemma Unlink(h: Heap, p: Ptr, a: seq<nat>, k: nat)
    requires Chain(h, p, a) && 1 <= k < |a|
    ensures var h' := SetNext(h, a[k - 1], h[a[k]].next);
      && Chain(h', p, a[..k] + a[k + 1..])
      && Data(h', a[..k] + a[k + 1..]) == Data(h, a)[..k] + Data(h, a)[k + 1..]
      && FramedBy(h, h', a) && |h'| == |h|
      && (forall x :: 0 <= x < |h| ==> h'[x].data == h[x].data)
  {
    var h' := SetNext(h, a[k - 1], h[a[k]].next);
    ChainSkip(h, p, a, k);
    DataRemove(h, a, k);
    DataOnlyLinks(h, h', a[..k] + a[k + 1..]);
  }

  /** A node whose successor is the start of a chain extends it at the
      front. */
  lemma ChainCons(h: Heap, a: seq<nat>, p: Ptr, x: nat)
    requires Chain(h, p, a) && x < |h| && x !in a && h[x].next == p
    ensures Chain(h, Ref(x), [x] + a)
  {
    var b := [x] + a;
    forall i | 0 <= i < |b| ensures h[b[i]].next == Succ(b, i) {
      if i > 0 {
        assert b[i] == a[i - 1];
        assert Succ(b, i) == Succ(a, i - 1);
      }
    }
  }

  /** Linking a fresh node after the last one extends a chain at the back,
      and its records by the new record. */
  lemma ChainSnoc(h: Heap, p: Ptr, a: seq<nat>, d: Drug)
    requires Chain(h, p, a)
    ensures var h' := h + [Node(d, Null)];
      var h'' := if a == [] then h' else SetNext(h', a[|a| - 1], Ref(|h|));
      Chain(h'', First(a + [|h|]), a + [|h|])
      && Data(h'', a + [|h|]) == Data(h, a) + [d]
  {
    var h' := h + [Node(d, Null)];
    if a == [] {
      SnocChain(h, p, a, h');
      DataConcat(h', a, [|h|]);
    } else {
      var h'' := SetNext(h', a[|a| - 1], Ref(|h|));
      assert forall x :: 0 <= x < |h| ==> h''[x].data == h[x].data;
      SnocChain(h, p, a, h'');
      DataFrame(h, h'', a);
      DataConcat(h'', a, [|h|]);
    }
  }

  lemma SnocChain(h: Heap, p: Ptr, a: seq<nat>, h'': Heap)
    requires Chain(h, p, a)
    requires |h''| == |h| + 1 && h''[|h|].next == Null
    requires forall x :: 0 <= x < |h| ==> h''[x].data == h[x].data
    requires forall x :: 0 <= x < |h| && (a == [] || x != a[|a| - 1]) ==> h''[x].next == h[x].next
    requires a != [] ==> h''[a[|a| - 1]].next == Ref(|h|)
    ensures Chain(h'', First(a + [|h|]), a + [|h|])
  {
    var b := a + [|h|];
    forall i | 0 <= i < |b| ensures h''[b[i]].next == Succ(b, i) {
      if i < |a| - 1 {
        assert b[i] == a[i] && Succ(b, i) == Succ(a, i);
        assert h[a[i]].next == Succ(a, i);
      }
    }
  }

  /** Linking a fresh node `n` in before position `k` (after position
      `k - 1`) inserts it into the chain there. */
  lemma ChainInsert(h: Heap, p: Ptr, a: seq<nat>, k: nat, n: nat)
    requires Chain(h, p, a) && 1 <= k < |a|
    requires n < |h| && n !in a
    ensures Chain(SetNext(SetNext(h, n, Ref(a[k])), a[k - 1], Ref(n)), p, a[..k] + [n] + a[k..])
  {
    var h' := SetNext(SetNext(h, n, Ref(a[k])), a[k - 1], Ref(n));
    var b := a[..k] + [n] + a[k..];
    DistinctInsert(a, k, n);
    assert h'[n].next == Ref(a[k]);
    assert h'[a[k - 1]].next == Ref(n);
    forall i | 0 <= i < |b| ensures h'[b[i]].next == Succ(b, i) {
      if i < k - 1 {
        assert b[i] == a[i] && b[i + 1] == a[i + 1];
        assert h[a[i]].next == Succ(a, i);
      } else if i == k - 1 {
        assert b[i] == a[k - 1] && b[i + 1] == n;
      } else if i == k {
        assert b[i] == n && b[i + 1] == a[k];
      } else {
        assert b[i] == a[i - 1];
        assert i + 1 < |b| ==> b[i + 1] == a[i];
        assert h[a[i - 1]].next == Succ(a, i - 1);
      }
    }
  }

  /** A fresh node linked in front of a chain becomes its new first node. */
  lemma InsertFront(h: Heap, p: Ptr, a: seq<nat>, d: Drug)
    requires Chain(h, p, a)
    ensures var h' := SetNext(h + [Node(d, Null)], |h|, p);
      && Chain(h', Ref(|h|), [|h|] + a)
      && Data(h', [|h|] + a) == [d] + Data(h, a)
      && FramedBy(h, h', a)
  {
    var h1 := h + [Node(d, Null)];
    var h' := SetNext(h1, |h|, p);
    ChainFrame(h, h', p, a);
    ChainCons(h', a, p, |h|);
    assert InHeap(h', [|h|]);
    DataConcat(h', [|h|], a);
  }

  /** A fresh node holding `d`, linked in before position `k` of a chain,
      puts `d` before position `k` of its records; the chain gains no other
      node. */
  lemma InsertAt(h: Heap, p: Ptr, a: seq<nat>, k: nat, d: Drug)
    requires Chain(h, p, a) && 1 <= k < |a|
    ensures var h' := SetNext(SetNext(h + [Node(d, Null)], |h|, Ref(a[k])), a[k - 1], Ref(|h|));
      var b := a[..k] + [|h|] + a[k..];
      && Chain(h', p, b)
      && Data(h', b) == Data(h, a)[..k] + [d] + Data(h, a)[k..]
      && FramedBy(h, h', a)
      && (forall x :: x in b ==> x in a || x == |h|)
  {
    var h1 := h + [Node(d, Null)];
    var h' := SetNext(SetNext(h1, |h|, Ref(a[k])), a[k - 1], Ref(|h|));
    ChainFrame(h, h1, p, a);
    ChainInsert(h1, p, a, k, |h|);
    InsertData(h, h', a, k, d);
    InsertMembers(a, k, |h|);
  }

  /** The records along `a` with one new address spliced in before position
      `k`, in a heap grown by a node holding `d`. */
  lemma InsertData(h: Heap, h': Heap, a: seq<nat>, k: nat, d: Drug)
    requires InHeap(h, a) && k <= |a|
    requires |h'| == |h| + 1 && h'[|h|].data == d
    requires forall x :: 0 <= x < |h| ==> h'[x].data == h[x].data
    ensures InHeap(h', a[..k] + [|h|] + a[k..])
    ensures Data(h', a[..k] + [|h|] + a[k..]) == Data(h, a)[..k] + [d] + Data(h, a)[k..]
  {
    assert a == a[..k] + a[k..];
    DataConcat(h, a[..k], a[k..]);
    DataFrame(h, h', a[..k]);
    DataFrame(h, h', a[k..]);
    DataConcat(h', a[..k], [|h|]);
    DataConcat(h', a[..k] + [|h|], a[k..]);
  }

  /** Splicing `n` into `a` adds no address but `n`. */
  lemma InsertMembers(a: seq<nat>, k: nat, n: nat)
    requires k <= |a|
    ensures forall x :: x in a[..k] + [n] + a[k..] ==> x in a || x == n
  {
    assert a == a[..k] + a[k..];
  }

  lemma DistinctInsert(a: seq<nat>, k: nat, n: nat)
    requires Distinct(a) && k <= |a| && n !in a
    ensures Distinct(a[..k] + [n] + a[k..])
  {
    var b := a[..k] + [n] + a[k..];
    forall i, j | 0 <= i < j < |b| ensures b[i] != b[j] {
      if j < k {
        assert b[i] == a[i] && b[j] == a[j];
      } else if j == k {
        assert b[i] == a[i] && b[j] == n;
      } else if i < k {
        assert b[i] == a[i] && b[j] == a[j - 1];
      } else if i == k {
        assert b[i] == n && b[j] == a[j - 1];
      } else {
        assert b[i] == a[i - 1] && b[j] == a[j - 1];
      }
    }
  }

  /** The records along two pieces of a chain are those of each piece. */
  lemma {:induction false} DataConcat(h: Heap, a: seq<nat>, b: seq<nat>)
    requires InHeap(h, a) && InHeap(h, b)
    ensures InHeap(h, a + b)
    ensures Data(h, a + b) == Data(h, a) + Data(h, b)
  {
    if a == [] {
      assert a + b == b;
    } else {
      assert (a + b)[1..] == a[1..] + b;
      DataConcat(h, a[1..], b);
    }
  }

  /** Dropping position `k` of a chain drops position `k` of its records. */
  lemma DataRemove(h: Heap, a: seq<nat>, k: nat)
    requires InHeap(h, a) && k < |a|
    ensures InHeap(h, a[..k] + a[k + 1..])
    ensures Data(h, a[..k] + a[k + 1..]) == Data(h, a)[..k] + Data(h, a)[k + 1..]
  {
    assert a == a[..k] + a[k..];
    assert a[k..][1..] == a[k + 1..];
    DataConcat(h, a[..k], a[k..]);
    DataConcat(h, a[..k], a[k + 1..]);
  }
}
