/**
 `DrugList`: a singly linked list of `Drug` records with head and tail
 pointers and a node count, and its splicing operations as the code performs
 them. Each operation takes the heap and the list value and returns the new
 ones; the ghost address sequence `a` names the chain from `head`.

 Two operations do not keep the list's own invariant (`Valid`: the tail is the
 last node of the head chain and the count is its length):
 - `InsertInOrder`, on a sorted list, never links a record that compares
   equal to the tail, yet still counts it;
 - `RemoveMin` never moves `tail`, so removing the last node leaves `tail` on
   a detached node.
 `InsertInOrderFixed` and `RemoveMinFixed` are the corrected operations.
 */
module DrugLists {
  import opened Options
  import opened Drugs
  import opened Ordered
  import opened Heaps

  datatype DrugList = DrugList(head: Ptr, tail: Ptr, count: int)

  /** `new DrugList()`. */
  const Empty: DrugList := DrugList(Null, Null, 0)

  /** The head chain is `a` and the tail is its last node. */
  ghost predicate Linked(h: Heap, l: DrugList, a: seq<nat>) {
    Chain(h, l.head, a) && l.tail == Last(a)
  }

  /** ... and the count is the chain's length. */
  ghost predicate Valid(h: Heap, l: DrugList, a: seq<nat>) {
    Linked(h, l, a) && l.count == |a|
  }

  /** `new DrugList()` is valid in any heap, and the only chain from its
      head is the empty one. */
  lemma EmptyValid(h: Heap)
    ensures Valid(h, Empty, [])
    ensures forall a :: Chain(h, Empty.head, a) <==> a == []
  {
  }

  /** The head chain is `a` and, unless it is empty, the tail is its last
      node: `InsertInOrder` reads the tail only when the list has a head. */
  ghost predicate Insertable(h: Heap, l: DrugList, a: seq<nat>) {
    Chain(h, l.head, a) && (a == [] || l.tail == Last(a))
  }

  /** The head chain is `a` and the tail is its last node or no node of it,
      as `RemoveMin` may leave it: repeated `RemoveFirst` then takes every
      node of the chain in turn. */
  ghost predicate Drainable(h: Heap, l: DrugList, a: seq<nat>) {
    Chain(h, l.head, a) && (l.tail == Last(a) || !(l.tail.Ref? && l.tail.addr in a))
  }

  /** `Append`: `null` changes nothing; otherwise a new node goes after the
      tail. A list whose tail is the last node gets the record at its end; a
      list whose tail was left on a detached node loses it. */
  method Append(h: Heap, l: DrugList, data: Option<Drug>, ghost a: seq<nat>)
    returns (h': Heap, l': DrugList)
    requires Chain(h, l.head, a)
    requires l.head != Null ==> l.tail.Ref? && l.tail.addr < |h|
    ensures data == None ==> h' == h && l' == l
    ensures data != None ==>
      && |h'| == |h| + 1 && h'[|h|] == Node(data.value, Null)
      && (l.head != Null ==> h'[l.tail.addr] == h[l.tail.addr].(next := Ref(|h|)))
      && (forall x :: 0 <= x < |h| && (l.head == Null || x != l.tail.addr) ==> h'[x] == h[x])
      && l' == DrugList(if l.head == Null then Ref(|h|) else l.head, Ref(|h|), l.count + 1)
    ensures data != None && l.tail == Last(a) ==>
      && Linked(h', l', a + [|h|])
      && Data(h', a + [|h|]) == Data(h, a) + [data.value]
      && FramedBy(h, h', a)
    ensures data != None && l.head != Null && l.tail.addr !in a ==>
      Chain(h', l'.head, a) && Data(h', a) == Data(h, a)
  {
    if data == None {
      return h, l;
    }
    var n: nat := |h|;
    h' := h + [Node(data.value, Null)];
    if l.head == Null {
      l' := l.(head := Ref(n), tail := Ref(n));
    } else if l.head == l.tail {
      h' := SetNext(h', l.head.addr, Ref(n));
      l' := l.(tail := Ref(n));
    } else {
      h' := SetNext(h', l.tail.addr, Ref(n));
      l' := l.(tail := Ref(n));
    }
    l' := l'.(count := l'.count + 1);
    if l.tail == Last(a) {
      ChainSnoc(h, l.head, a, data.value);
    }
    if l.head != Null && l.tail.addr !in a {
      ChainFrame(h, h', l.head, a);
    }
  }

  /** `RemoveFirst`: an empty list answers `null` and is left alone;
      otherwise the head's record comes back and the head moves to its
      successor, both ends becoming `null` when head and tail coincide. */
  method RemoveFirst(h: Heap, l: DrugList, ghost a: seq<nat>) returns (l': DrugList, r: Option<Drug>)
    requires Chain(h, l.head, a)
    ensures a == [] ==> r == None && l' == l
    ensures a != [] ==>
      && r == Some(Data(h, a)[0])
      && l'.count == l.count - 1
      && Chain(h, l'.head, if l.head == l.tail then [] else a[1..])
    ensures a != [] && l.head == l.tail ==> l'.head == Null && l'.tail == Null
    ensures a != [] && l.head != l.tail ==> l'.tail == l.tail
    ensures a != [] && Linked(h, l, a) ==> Linked(h, l', a[1..])
    ensures a != [] && Drainable(h, l, a) ==> Drainable(h, l', a[1..])
  {
    if l.head != Null {
      l' := l.(count := l.count - 1);
      ChainRest(h, l.head, a);
      if l.head == l.tail {
        var tmp := l.head;
        l' := l'.(head := Null, tail := Null);
        return l', Some(h[tmp.addr].data);
      } else {
        var tmp := l.head;
        l' := l'.(head := h[l.head.addr].next);
        return l', Some(h[tmp.addr].data);
      }
    } else {
      return l, None;
    }
  }

  /** The scan of `RemoveMin`: `previous` starts on the head and `tmp` walks
      the list; whenever `previous.Next` compares greater than `tmp.Next`,
      `previous` moves to `tmp`. At the end `previous.Next` is the first
      minimal node after the head. */
  method ScanMin(cmp: Comparator, h: Heap, l: DrugList, ghost a: seq<nat>)
    returns (previous: Ptr, ghost p: nat)
    requires IsComparator(cmp)
    requires Chain(h, l.head, a) && |a| >= 2
    ensures p + 1 < |a| && previous == Ref(a[p])
    ensures EarliestMin(cmp, Data(h, a)[1..], p)
    // The same fact stated of `previous` alone, without the ghost index.
    ensures exists q :: 0 <= q < |a| - 1 && previous == Ref(a[q]) && EarliestMin(cmp, Data(h, a)[1..], q)
  {
    ghost var s := Data(h, a);
    var tmp := l.head;
    previous := l.head;
    ghost var i := 0;
    p := 0;
    while h[tmp.addr].next != Null
      invariant 0 <= i < |a| && tmp == Ref(a[i])
      invariant p + 1 < |a| && previous == Ref(a[p])
      invariant MinSoFar(cmp, s, i, p)
      decreases |a| - i
    {
      previous, tmp, i, p := ScanMinStep(cmp, h, l, a, previous, tmp, i, p);
    }
    assert h[a[i]].next == Succ(a, i);
    MinDone(cmp, s, p);
  }

  /** One turn of the scan of `RemoveMin`. */
  method ScanMinStep(cmp: Comparator, h: Heap, l: DrugList, ghost a: seq<nat>,
                     previous: Ptr, tmp: Ptr, ghost i: nat, ghost p: nat)
    returns (previous': Ptr, tmp': Ptr, ghost i': nat, ghost p': nat)
    requires IsComparator(cmp)
    requires Chain(h, l.head, a)
    requires i < |a| && tmp == Ref(a[i]) && h[a[i]].next != Null
    requires p + 1 < |a| && previous == Ref(a[p])
    requires MinSoFar(cmp, Data(h, a), i, p)
    ensures i' == i + 1 && i' < |a| && tmp' == Ref(a[i'])
    ensures p' + 1 < |a| && previous' == Ref(a[p'])
    ensures MinSoFar(cmp, Data(h, a), i', p')
    // The same facts stated of the pointers alone, without the ghost indices.
    ensures tmp' == Ref(a[i + 1])
    ensures exists q :: 0 <= q < |a| - 1 && previous' == Ref(a[q]) && MinSoFar(cmp, Data(h, a), i + 1, q)
  {
    ghost var s := Data(h, a);
    assert h[a[i]].next == Succ(a, i) == Ref(a[i + 1]);
    assert h[a[p]].next == Succ(a, p) == Ref(a[p + 1]);
    DataAt(h, a, p + 1);
    DataAt(h, a, i + 1);
    tmp', i' := h[tmp.addr].next, i + 1;
    if Compare(cmp, h[h[previous.addr].next.addr].data, h[h[tmp.addr].next.addr].data) == 1 {
      MinStep(cmp, s, i, p);
      previous', p' := tmp, i;
    } else {
      MinKeep(cmp, s, i, p);
      previous', p' := previous, p;
    }
  }

  /** `RemoveMin`: an empty list answers `null`; otherwise the first record
      no other compares less than is unlinked and returned, the rest stay in
      order and the count drops by one. `tail` is never touched, so after
      the last node is removed it points at a node that can no longer be
      reached from `head`. */
  method RemoveMin(cmp: Comparator, h: Heap, l: DrugList, ghost a: seq<nat>)
    returns (h': Heap, l': DrugList, r: Option<Drug>, ghost k: nat)
    requires IsComparator(cmp)
    requires Chain(h, l.head, a)
    ensures a == [] ==> r == None && h' == h && l' == l
    ensures a != [] ==>
      && EarliestMin(cmp, Data(h, a), k)
      && r == Some(Data(h, a)[k])
      && Chain(h', l'.head, a[..k] + a[k + 1..])
      && Data(h', a[..k] + a[k + 1..]) == Data(h, a)[..k] + Data(h, a)[k + 1..]
      && l'.count == l.count - 1
    ensures l'.tail == l.tail
    ensures FramedBy(h, h', a) && |h'| == |h|
    ensures forall x :: 0 <= x < |h| ==> h'[x].data == h[x].data
    ensures a != [] && k == |a| - 1 && l.tail == Last(a) ==>
      l'.tail.Ref? && !Reachable(h', l'.head, l'.tail.addr)
    ensures a != [] && Linked(h, l, a) ==> Drainable(h', l', a[..k] + a[k + 1..])
  {
    if l.head == Null {
      return h, l, None, 0;
    }
    assert h[a[0]].next == Succ(a, 0);
    DataAt(h, a, 0);
    if h[l.head.addr].next == Null {
      var temp := l.head;
      l' := l.(head := h[l.head.addr].next, count := l.count - 1);
      h', r, k := h, Some(h[temp.addr].data), 0;
    } else {
      var d, previous, removed;
      h', l', d, k, previous, removed := UnlinkMin(cmp, h, l, a);
      r := Some(d);
    }
    if l.tail == Last(a) {
      StaleTail(h', l', a, k);
    }
  }

  /** A tail left on the last node of `a` is, once position `k` is gone,
      still the last node, or — when `k` was the last position — on no node
      of the chain and unreachable from its head. */
  lemma StaleTail(h: Heap, l: DrugList, a: seq<nat>, k: nat)
    requires Distinct(a) && k < |a| && l.tail == Last(a)
    requires Chain(h, l.head, a[..k] + a[k + 1..])
    ensures Drainable(h, l, a[..k] + a[k + 1..])
    ensures k == |a| - 1 ==> l.tail.Ref? && !Reachable(h, l.head, l.tail.addr)
  {
    var b := a[..k] + a[k + 1..];
    if k == |a| - 1 {
      assert forall i :: 0 <= i < |b| ==> b[i] == a[i];
      NotReachable(h, l.head, b, l.tail.addr);
    } else {
      assert b[|b| - 1] == a[|a| - 1];
    }
  }

  /** `RemoveMin` as it was meant to behave: also when the node removed is
      the tail, the list stays well formed — `tail` becomes `null` when the
      only node goes and moves back to the node before it when the last of
      several goes. */
  method RemoveMinFixed(cmp: Comparator, h: Heap, l: DrugList, ghost a: seq<nat>)
    returns (h': Heap, l': DrugList, r: Option<Drug>, ghost k: nat)
    requires IsComparator(cmp)
    requires Linked(h, l, a)
    ensures a == [] ==> r == None && h' == h && l' == l
    ensures a != [] ==>
      && EarliestMin(cmp, Data(h, a), k)
      && r == Some(Data(h, a)[k])
      && Linked(h', l', a[..k] + a[k + 1..])
      && Data(h', a[..k] + a[k + 1..]) == Data(h, a)[..k] + Data(h, a)[k + 1..]
      && l'.count == l.count - 1
    ensures a != [] && Valid(h, l, a) ==> Valid(h', l', a[..k] + a[k + 1..])
    ensures FramedBy(h, h', a) && |h'| == |h|
  {
    if l.head == Null {
      return h, l, None, 0;
    }
    assert h[a[0]].next == Succ(a, 0);
    DataAt(h, a, 0);
    if h[l.head.addr].next == Null {
      var temp := l.head;
      l' := l.(head := h[l.head.addr].next, tail := Null, count := l.count - 1);
      h', r, k := h, Some(h[temp.addr].data), 0;
      return;
    }
    var d;
    h', l', d, k := UnlinkMinFixed(cmp, h, l, a);
    r := Some(d);
  }

  /** The corrected part of `RemoveMin` for two or more nodes: when the node
      unlinked is the tail, the tail moves back to the node before it. */
  method UnlinkMinFixed(cmp: Comparator, h: Heap, l: DrugList, ghost a: seq<nat>)
    returns (h': Heap, l': DrugList, r: Drug, ghost k: nat)
    requires IsComparator(cmp)
    requires Linked(h, l, a) && |a| >= 2
    ensures EarliestMin(cmp, Data(h, a), k)
    ensures r == Data(h, a)[k]
    ensures Linked(h', l', a[..k] + a[k + 1..])
    ensures Data(h', a[..k] + a[k + 1..]) == Data(h, a)[..k] + Data(h, a)[k + 1..]
    ensures l'.count == l.count - 1
    ensures FramedBy(h, h', a) && |h'| == |h|
  {
    var previous, removed;
    h', l', r, k, previous, removed := UnlinkMin(cmp, h, l, a);
    ghost var b := a[..k] + a[k + 1..];
    if removed == l.tail {
      l' := l'.(tail := previous);
      assert b[|b| - 1] == a[k - 1];
    } else {
      assert b[|b| - 1] == a[|a| - 1];
    }
  }

  /** The part of `RemoveMin` for two or more nodes: find the first minimal
      node after the head, then unlink it if it is below the head, else
      unlink the head. */
  method UnlinkMin(cmp: Comparator, h: Heap, l: DrugList, ghost a: seq<nat>)
    returns (h': Heap, l': DrugList, r: Drug, ghost k: nat, previous: Ptr, removed: Ptr)
    requires IsComparator(cmp)
    requires Chain(h, l.head, a) && |a| >= 2
    ensures EarliestMin(cmp, Data(h, a), k)
    ensures removed == Ref(a[k]) && (k > 0 ==> previous == Ref(a[k - 1]))
    ensures r == Data(h, a)[k]
    ensures Chain(h', l'.head, a[..k] + a[k + 1..])
    ensures Data(h', a[..k] + a[k + 1..]) == Data(h, a)[..k] + Data(h, a)[k + 1..]
    ensures l' == l.(head := l'.head, count := l.count - 1)
    ensures FramedBy(h, h', a) && |h'| == |h|
    ensures forall x :: 0 <= x < |h| ==> h'[x].data == h[x].data
  {
    ghost var s := Data(h, a);
    ghost var p;
    previous, p := ScanMin(cmp, h, l, a);
    assert h[a[p]].next == Succ(a, p) == Ref(a[p + 1]);
    var minDrug := h[previous.addr].next;
    DataAt(h, a, 0);
    DataAt(h, a, p + 1);
    if Compare(cmp, h[minDrug.addr].data, h[l.head.addr].data) == -1 {
      k := p + 1;
      Unlink(h, l.head, a, k);
      h' := SetNext(h, previous.addr, h[minDrug.addr].next);
      l' := l.(count := l.count - 1);
      r := h[minDrug.addr].data;
      removed := minDrug;
      MinAfterHead(cmp, s, p);
    } else {
      var tmph := l.head;
      UnlinkHead(h, l.head, a);
      l' := l.(head := h[l.head.addr].next, count := l.count - 1);
      h', r, k := h, h[tmph.addr].data, 0;
      removed := tmph;
      MinAtHead(cmp, s, p);
    }
  }

  /** The scan of `InsertInOrder`: `current` walks from the head with
      `previous` one node behind (on the head itself at first) and stops at
      the first node comparing greater than `d`, or runs off the end. */
  method ScanGreater(cmp: Comparator, h: Heap, l: DrugList, d: Drug, ghost a: seq<nat>)
    returns (previous: Ptr, current: Ptr, ghost k: nat)
    requires IsComparator(cmp)
    requires Chain(h, l.head, a) && a != []
    requires cmp(h[a[0]].data.name, d.name) != 1
    ensures 1 <= k <= |a| && k == FirstGreater(cmp, Data(h, a), d)
    ensures current == (if k < |a| then Ref(a[k]) else Null)
    ensures previous == Ref(a[k - 1])
    // What the clauses above say of `current` alone, without the ghost index.
    ensures current.Ref? ==> current.addr < |h| && Compare(cmp, h[current.addr].data, d) == 1
  {
    current := l.head;
    previous := current;
    k := 0;
    while current != Null
      invariant 0 <= k <= |a|
      invariant current == (if k < |a| then Ref(a[k]) else Null)
      invariant previous == Ref(a[if k == 0 then 0 else k - 1])
      invariant forall j :: 0 <= j < k ==> cmp(Data(h, a)[j].name, d.name) != 1
      decreases |a| - k
    {
      DataAt(h, a, k);
      if Compare(cmp, h[current.addr].data, d) == 1 {
        break;
      }
      assert h[a[k]].next == Succ(a, k);
      previous := current;
      current := h[current.addr].next;
      k := k + 1;
    }
    FirstGreaterUnique(cmp, Data(h, a), d, k);
  }

  /** `InsertInOrder`, as written: a new node before a greater head, after a
      smaller tail (through `Append`), or before the first greater node found
      by the scan — and nowhere when the scan finds none, although the count
      still grows. On a sorted list this is the documented insertion unless
      `d` ties the tail; then `d` is lost and the count overstates the
      length. */
  method InsertInOrder(cmp: Comparator, h: Heap, l: DrugList, d: Drug, ghost a: seq<nat>)
    returns (h': Heap, l': DrugList, ghost a': seq<nat>)
    requires IsComparator(cmp)
    requires Insertable(h, l, a)
    ensures Linked(h', l', a') && l'.count == l.count + 1
    ensures Data(h', a') == InsertAsWritten(cmp, Data(h, a), d)
    ensures FramedBy(h, h', a)
    ensures forall x :: x in a' ==> x in a || |h| <= x
    ensures Sorted(cmp, Data(h, a)) ==> Sorted(cmp, Data(h', a'))
    ensures Sorted(cmp, Data(h, a)) && (a == [] || cmp(Data(h, a)[|a| - 1].name, d.name) != 0) ==>
      && Data(h', a') == InsertBeforeGreater(cmp, Data(h, a), d)
      && (Valid(h, l, a) ==> Valid(h', l', a'))
    ensures Sorted(cmp, Data(h, a)) && a != [] && cmp(Data(h, a)[|a| - 1].name, d.name) == 0 ==>
      && Data(h', a') == Data(h, a)
      && (Valid(h, l, a) ==> !Valid(h', l', a'))
  {
    h', l', a' := InsertCases(cmp, false, h, l, d, a);
    InsertAsWrittenFacts(cmp, Data(h, a), d);
  }

  /** The four cases of `InsertInOrder`, or of the corrected insertion when
      `fixed`. */
  method InsertCases(cmp: Comparator, fixed: bool, h: Heap, l: DrugList, d: Drug, ghost a: seq<nat>)
    returns (h': Heap, l': DrugList, ghost a': seq<nat>)
    requires IsComparator(cmp)
    requires Insertable(h, l, a)
    ensures Linked(h', l', a') && l'.count == l.count + 1
    ensures Data(h', a') == InsertOne(cmp, fixed, Data(h, a), d)
    ensures FramedBy(h, h', a)
    ensures forall x :: x in a' ==> x in a || |h| <= x
  {
    var n: nat := |h|;
    if l.head == Null {
      h' := h + [Node(d, Null)];
      l' := l.(head := Ref(n), tail := Ref(n));
      a' := [n];
    } else {
      h', l', a' := InsertLinked(cmp, fixed, h, l, d, a);
    }
    l' := l'.(count := l'.count + 1);
  }

  /** The tail test: as written, `d` goes after the tail only when the tail
      compares less; corrected, whenever the tail does not compare greater. */
  predicate AfterTail(fixed: bool, c: int) {
    if fixed then c != 1 else c == -1
  }

  /** The three cases on a list with a head. */
  method InsertLinked(cmp: Comparator, fixed: bool, h: Heap, l: DrugList, d: Drug, ghost a: seq<nat>)
    returns (h': Heap, l': DrugList, ghost a': seq<nat>)
    requires IsComparator(cmp)
    requires Linked(h, l, a) && l.head != Null
    ensures Linked(h', l', a') && l'.count == l.count
    ensures Data(h', a') == InsertOne(cmp, fixed, Data(h, a), d)
    ensures FramedBy(h, h', a)
    ensures forall x :: x in a' ==> x in a || |h| <= x
  {
    DataAt(h, a, 0);
    DataAt(h, a, |a| - 1);
    if Compare(cmp, h[l.head.addr].data, d) == 1 {
      h', l', a' := InsertAtFront(h, l, d, a);
    } else if AfterTail(fixed, Compare(cmp, h[l.tail.addr].data, d)) {
      h', l', a' := InsertAtEnd(h, l, d, a);
    } else {
      h', a' := InsertAtScan(cmp, h, l, d, a);
      l' := l;
    }
  }

  /** `InsertInOrder` as it was meant to behave: the tail test asks whether
      the tail is not greater than `d` (rather than strictly less), so a
      record tying the tail goes after it and every record is linked in. */
  method InsertInOrderFixed(cmp: Comparator, h: Heap, l: DrugList, d: Drug, ghost a: seq<nat>)
    returns (h': Heap, l': DrugList, ghost a': seq<nat>)
    requires IsComparator(cmp)
    requires Insertable(h, l, a)
    ensures Linked(h', l', a') && l'.count == l.count + 1 && |a'| == |a| + 1
    ensures Valid(h, l, a) ==> Valid(h', l', a')
    ensures Data(h', a') == InsertFixed(cmp, Data(h, a), d)
    ensures multiset(Data(h', a')) == multiset(Data(h, a)) + multiset{d}
    ensures Sorted(cmp, Data(h, a)) ==>
      Data(h', a') == InsertBeforeGreater(cmp, Data(h, a), d) && Sorted(cmp, Data(h', a'))
    ensures FramedBy(h, h', a)
    ensures forall x :: x in a' ==> x in a || |h| <= x
  {
    h', l', a' := InsertCases(cmp, true, h, l, d, a);
    InsertFixedAddsOne(cmp, Data(h, a), d);
    if Sorted(cmp, Data(h, a)) {
      InsertFixedSorted(cmp, Data(h, a), d);
    }
  }

  /** The case of `InsertInOrder` where the head is above `d`: the new node
      becomes the head. */
  method InsertAtFront(h: Heap, l: DrugList, d: Drug, ghost a: seq<nat>)
    returns (h': Heap, l': DrugList, ghost a': seq<nat>)
    requires Linked(h, l, a) && a != []
    ensures Linked(h', l', a') && l' == l.(head := Ref(|h|))
    ensures a' == [|h|] + a
    ensures Data(h', a') == [d] + Data(h, a)
    ensures FramedBy(h, h', a)
  {
    var n: nat := |h|;
    h' := h + [Node(d, Null)];
    InsertFront(h, l.head, a, d);
    h' := SetNext(h', n, l.head);
    l' := l.(head := Ref(n));
    a' := [n] + a;
  }

  /** The case of `InsertInOrder` where `d` is above the tail: the node
      allocated first is abandoned, `Append` links a second one after the
      tail, and the count is put back. */
  method InsertAtEnd(h: Heap, l: DrugList, d: Drug, ghost a: seq<nat>)
    returns (h': Heap, l': DrugList, ghost a': seq<nat>)
    requires Linked(h, l, a) && a != []
    ensures Linked(h', l', a') && l'.count == l.count
    ensures a' == a + [|h| + 1]
    ensures Data(h', a') == Data(h, a) + [d]
    ensures FramedBy(h, h', a)
  {
    var h1 := h + [Node(d, Null)];
    ChainFrame(h, h1, l.head, a);
    var l1;
    h', l1 := Append(h1, l, Some(d), a);
    a' := a + [|h| + 1];
    AppendedAfterAbandoned(h, h1, h', l, l1, d, a);
    l' := l1.(count := l1.count - 1);
  }

  /** What `Append` promises about the heap with the abandoned node, read
      back against the heap before it. */
  lemma AppendedAfterAbandoned(h: Heap, h1: Heap, h2: Heap, l: DrugList, l2: DrugList, d: Drug, a: seq<nat>)
    requires Linked(h, l, a)
    requires h1 == h + [Node(d, Null)] && Data(h1, a) == Data(h, a)
    requires Linked(h2, l2, a + [|h1|]) && Data(h2, a + [|h1|]) == Data(h1, a) + [d]
    requires FramedBy(h1, h2, a)
    ensures Linked(h2, l2.(count := l2.count - 1), a + [|h| + 1])
    ensures Data(h2, a + [|h| + 1]) == Data(h, a) + [d]
    ensures FramedBy(h, h2, a)
  {
  }

  /** The last case of `InsertInOrder`, where `d` is neither below the head
      nor above the tail: the new node goes in before the first greater node
      the scan finds, and is left unlinked when the scan finds none. */
  method InsertAtScan(cmp: Comparator, h: Heap, l: DrugList, d: Drug, ghost a: seq<nat>)
    returns (h': Heap, ghost a': seq<nat>)
    requires IsComparator(cmp)
    requires Linked(h, l, a) && a != []
    requires cmp(Data(h, a)[0].name, d.name) != 1
    ensures Linked(h', l, a')
    ensures var s := Data(h, a); var k := FirstGreater(cmp, s, d);
      Data(h', a') == if k < |s| then s[..k] + [d] + s[k..] else s
    ensures FramedBy(h, h', a) && |h'| == |h| + 1
    ensures forall x :: x in a' ==> x in a || x == |h|
  {
    ghost var s := Data(h, a);
    var n: nat := |h|;
    h' := h + [Node(d, Null)];
    var previous, current;
    ghost var k;
    DataAt(h, a, 0);
    previous, current, k := ScanGreater(cmp, h, l, d, a);
    if current != Null {
      InsertAt(h, l.head, a, k, d);
      h' := SetNext(h', n, current);
      h' := SetNext(h', previous.addr, Ref(n));
      a' := a[..k] + [n] + a[k..];
      assert a'[|a'| - 1] == a[|a| - 1];
    } else {
      ChainFrame(h, h', l.head, a);
      a' := a;
    }
  }

  /** The three properties of `InsertAsWritten` the list relies on. */
  lemma InsertAsWrittenFacts(cmp: Comparator, s: seq<Drug>, d: Drug)
    requires IsComparator(cmp)
    ensures Sorted(cmp, s) ==> Sorted(cmp, InsertAsWritten(cmp, s, d))
    ensures Sorted(cmp, s) && (s == [] || cmp(s[|s| - 1].name, d.name) != 0) ==>
      InsertAsWritten(cmp, s, d) == InsertBeforeGreater(cmp, s, d) && |InsertAsWritten(cmp, s, d)| == |s| + 1
    ensures Sorted(cmp, s) && s != [] && cmp(s[|s| - 1].name, d.name) == 0 ==>
      InsertAsWritten(cmp, s, d) == s
  {
    if Sorted(cmp, s) {
      InsertAsWrittenSorted(cmp, s, d);
      if s == [] || cmp(s[|s| - 1].name, d.name) != 0 {
        InsertAsWrittenNormal(cmp, s, d);
        InsertBeforeGreaterSorted(cmp, s, d);
      } else {
        InsertAsWrittenDropsTie(cmp, s, d);
      }
    }
  }

  /** `ToArray`: an array of `count` slots filled with the records along
      the chain, in order, the rest left `null`. `None` stands for the
      exception the code raises: a negative count cannot size an array, and
      a chain longer than the count runs past its end. */
  method ToArray(h: Heap, l: DrugList, ghost a: seq<nat>) returns (r: Option<seq<Option<Drug>>>)
    requires Chain(h, l.head, a)
    ensures r == None <==> l.count < 0 || l.count < |a|
    ensures r != None ==>
      && |r.value| == l.count
      && (forall i :: 0 <= i < |a| ==> r.value[i] == Some(Data(h, a)[i]))
      && (forall i :: |a| <= i < l.count ==> r.value[i] == None)
  {
    if l.count < 0 {
      return None;
    }
    var result: seq<Option<Drug>> := seq(l.count, _ => None);
    var nextIndex := 0;
    var current := l.head;
    while current != Null
      invariant 0 <= nextIndex <= |a| && nextIndex <= l.count
      invariant current == (if nextIndex < |a| then Ref(a[nextIndex]) else Null)
      invariant |result| == l.count
      invariant forall i :: 0 <= i < nextIndex ==> result[i] == Some(Data(h, a)[i])
      invariant forall i :: nextIndex <= i < l.count ==> result[i] == None
      decreases |a| - nextIndex
    {
      if nextIndex >= |result| {
        return None;
      }
      DataAt(h, a, nextIndex);
      assert h[a[nextIndex]].next == Succ(a, nextIndex);
      result := result[nextIndex := Some(h[current.addr].data)];
      nextIndex := nextIndex + 1;
      current := h[current.addr].next;
    }
    return Some(result);
  }

  /** `Enumeration`: the records along the chain from the head, in order. */
  method Enumeration(h: Heap, l: DrugList, ghost a: seq<nat>) returns (r: seq<Drug>)
    requires Chain(h, l.head, a)
    ensures r == Data(h, a)
  {
    r := [];
    var current := l.head;
    ghost var i := 0;
    while current != Null
      invariant 0 <= i <= |a|
      invariant current == (if i < |a| then Ref(a[i]) else Null)
      invariant r == Data(h, a)[..i]
      decreases |a| - i
    {
      DataAt(h, a, i);
      assert h[a[i]].next == Succ(a, i);
      assert Data(h, a)[..i + 1] == Data(h, a)[..i] + [Data(h, a)[i]];
      r := r + [h[current.addr].data];
      current := h[current.addr].next;
      i := i + 1;
    }
    assert Data(h, a)[..|a|] == Data(h, a);
  }
}
