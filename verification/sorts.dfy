/**
 The two sorts of `DrugList`. Both empty the list one record at a time into a
 fresh list and then take over that list's head, tail and count.

 - `SelectSort` repeatedly removes a minimum and appends it. It leaves a well
   formed, sorted permutation of the records, whatever the count and tail of
   the list it started from, because `RemoveMin` reads neither.
 - `InsertSort` repeatedly removes the first record and inserts it in order.
   Because `InsertInOrder` drops a record that ties the tail, the result is
   well formed exactly when no record ties the running maximum of those
   before it; `InsertSortFixed` uses the corrected insertion and always is.
 */
module Sorts {
  import opened Options
  import opened Drugs
  import opened Ordered
  import opened Heaps
  import opened DrugLists

  /** The record a sort is holding between two list operations. */
  function Pending(tmp: Option<Drug>): seq<Drug>
  {
    if tmp == None then [] else [tmp.value]
  }

  /** `RemoveMin` on the rest of the list, with the chain that is left. */
  method TakeMin(cmp: Comparator, h: Heap, rest: DrugList, ghost ra: seq<nat>)
    returns (h': Heap, rest': DrugList, tmp: Option<Drug>, ghost ra': seq<nat>, ghost k: nat)
    requires IsComparator(cmp)
    requires Chain(h, rest.head, ra)
    ensures Chain(h', rest'.head, ra')
    ensures FramedBy(h, h', ra) && |h'| == |h|
    ensures forall x :: x in ra' ==> x in ra
    ensures tmp == None <==> ra == []
    ensures tmp == None ==> ra' == [] && h' == h
    ensures tmp != None ==>
      && EarliestMin(cmp, Data(h, ra), k)
      && tmp.value == Data(h, ra)[k]
      && Data(h', ra') == Without(Data(h, ra), k)
  {
    h', rest', tmp, k := RemoveMin(cmp, h, rest, ra);
    if tmp == None {
      ra' := [];
      return;
    }
    ra' := ra[..k] + ra[k + 1..];
    RemoveMembers(ra, k);
  }

  /** The nodes of the two lists during a sort: only nodes of the starting
      chain `a` and fresh ones have changed; the rest of the list is a chain
      of nodes from `a`, and the sorted list is a well formed list of fresh
      nodes. */
  ghost predicate Separate(h0: Heap, a: seq<nat>, h: Heap, rest: DrugList, ra: seq<nat>,
                           sorted: DrugList, sa: seq<nat>)
  {
    && InHeap(h0, a)
    && FramedBy(h0, h, a)
    && Chain(h, rest.head, ra)
    && (forall x :: x in ra ==> x in a)
    && Valid(h, sorted, sa)
    && (forall x :: x in sa ==> |h0| <= x)
  }

  /** The records of `SelectSort` each time it tests its loop condition:
      the sorted records `ss`, the records left `rs` and the pending one
      together are the starting records `s0`; `ss` is sorted, the pending
      record is at least its last and at most every record left. */
  ghost predicate SelectOrder(cmp: Comparator, s0: seq<Drug>, rs: seq<Drug>, ss: seq<Drug>, tmp: Option<Drug>)
  {
    && Sorted(cmp, ss)
    && multiset(rs) + multiset(ss) + multiset(Pending(tmp)) == multiset(s0)
    && (tmp == None ==> rs == [])
    && (tmp != None && ss != [] ==> cmp(ss[|ss| - 1].name, tmp.value.name) <= 0)
    && (tmp != None ==> forall j :: 0 <= j < |rs| ==> cmp(tmp.value.name, rs[j].name) <= 0)
  }

  /** ... and half way through a turn, once the pending record has been
      appended: the last sorted record is at most every record left. */
  ghost predicate AppendedOrder(cmp: Comparator, s0: seq<Drug>, rs: seq<Drug>, ss: seq<Drug>)
  {
    && Sorted(cmp, ss) && ss != []
    && multiset(rs) + multiset(ss) == multiset(s0)
    && (forall j :: 0 <= j < |rs| ==> cmp(ss[|ss| - 1].name, rs[j].name) <= 0)
  }

  ghost predicate SelectInvariant(cmp: Comparator, h0: Heap, a: seq<nat>,
                                  h: Heap, rest: DrugList, ra: seq<nat>,
                                  sorted: DrugList, sa: seq<nat>, tmp: Option<Drug>)
  {
    && Separate(h0, a, h, rest, ra, sorted, sa)
    && SelectOrder(cmp, Data(h0, a), Data(h, ra), Data(h, sa), tmp)
  }

  /** `SelectSort`: a sorted, well formed permutation of the records on the
      head chain; only nodes of that chain and new nodes change. */
  method SelectSort(cmp: Comparator, h: Heap, l: DrugList, ghost a: seq<nat>)
    returns (h': Heap, l': DrugList, ghost a': seq<nat>)
    requires IsComparator(cmp)
    requires Chain(h, l.head, a)
    ensures Valid(h', l', a') && |a'| == |a|
    ensures Sorted(cmp, Data(h', a'))
    ensures multiset(Data(h', a')) == multiset(Data(h, a))
    ensures FramedBy(h, h', a)
  {
    var sorted := Empty;
    ghost var sa: seq<nat> := [];
    var rest, tmp;
    ghost var ra, k;
    h', rest, tmp, ra, k := TakeMin(cmp, h, l, a);
    SelectStart(cmp, h, a, h', rest, ra, tmp, k);
    while tmp != None
      invariant SelectInvariant(cmp, h, a, h', rest, ra, sorted, sa, tmp)
      decreases |ra| + |Pending(tmp)|
    {
      h', rest, sorted, tmp, ra, sa := SelectStep(cmp, h, a, h', rest, ra, sorted, sa, tmp);
    }
    SelectDone(cmp, h, a, h', rest, ra, sorted, sa);
    l' := DrugList(sorted.head, sorted.tail, sorted.count);
    a' := sa;
  }

  /** The first `RemoveMin` sets up the loop of `SelectSort`. */
  lemma SelectStart(cmp: Comparator, h0: Heap, a: seq<nat>, h: Heap, rest: DrugList, ra: seq<nat>,
                    tmp: Option<Drug>, k: nat)
    requires IsComparator(cmp)
    requires InHeap(h0, a) && FramedBy(h0, h, a) && |h| == |h0|
    requires Chain(h, rest.head, ra) && (forall x :: x in ra ==> x in a)
    requires tmp == None <==> a == []
    requires tmp == None ==> ra == [] && h == h0
    requires tmp != None ==>
      && EarliestMin(cmp, Data(h0, a), k)
      && tmp.value == Data(h0, a)[k]
      && Data(h, ra) == Without(Data(h0, a), k)
    ensures SelectInvariant(cmp, h0, a, h, rest, ra, Empty, [], tmp)
  {
    assert Separate(h0, a, h, rest, ra, Empty, []);
    if tmp != None {
      OrderStart(cmp, Data(h0, a), k);
    }
  }

  /** When no record is pending, the sorted list holds them all. */
  lemma SelectDone(cmp: Comparator, h0: Heap, a: seq<nat>, h: Heap, rest: DrugList, ra: seq<nat>,
                   sorted: DrugList, sa: seq<nat>)
    requires SelectInvariant(cmp, h0, a, h, rest, ra, sorted, sa, None)
    ensures Valid(h, sorted, sa) && |sa| == |a|
    ensures Sorted(cmp, Data(h, sa))
    ensures multiset(Data(h, sa)) == multiset(Data(h0, a))
    ensures FramedBy(h0, h, a)
  {
    assert |multiset(Data(h, sa))| == |multiset(Data(h0, a))|;
  }

  /** One turn of the `SelectSort` loop: append the pending record, then
      remove the next minimum. */
  method SelectStep(cmp: Comparator, ghost h0: Heap, ghost a: seq<nat>,
                    h: Heap, rest: DrugList, ghost ra: seq<nat>,
                    sorted: DrugList, ghost sa: seq<nat>, tmp: Option<Drug>)
    returns (h': Heap, rest': DrugList, sorted': DrugList, tmp': Option<Drug>,
             ghost ra': seq<nat>, ghost sa': seq<nat>)
    requires IsComparator(cmp)
    requires SelectInvariant(cmp, h0, a, h, rest, ra, sorted, sa, tmp) && tmp != None
    ensures SelectInvariant(cmp, h0, a, h', rest', ra', sorted', sa', tmp')
    ensures |ra'| + |Pending(tmp')| < |ra| + |Pending(tmp)|
    ensures sorted'.count == sorted.count + 1 && sorted'.tail == Ref(|h|)
  {
    var h1;
    h1, sorted', sa' := AppendHalf(cmp, h0, a, h, rest, ra, sorted, sa, tmp.value);
    h', rest', tmp', ra' := TakeHalf(cmp, h0, a, h1, rest, ra, sorted', sa');
  }

  /** Between the two halves of a turn. */
  ghost predicate Appended(cmp: Comparator, h0: Heap, a: seq<nat>,
                           h: Heap, rest: DrugList, ra: seq<nat>,
                           sorted: DrugList, sa: seq<nat>)
  {
    && Separate(h0, a, h, rest, ra, sorted, sa)
    && AppendedOrder(cmp, Data(h0, a), Data(h, ra), Data(h, sa))
  }

  /** `sortedList.Append(tmp)`. */
  method AppendHalf(cmp: Comparator, ghost h0: Heap, ghost a: seq<nat>,
                    h: Heap, rest: DrugList, ghost ra: seq<nat>,
                    sorted: DrugList, ghost sa: seq<nat>, t: Drug)
    returns (h': Heap, sorted': DrugList, ghost sa': seq<nat>)
    requires IsComparator(cmp)
    requires SelectInvariant(cmp, h0, a, h, rest, ra, sorted, sa, Some(t))
    ensures Appended(cmp, h0, a, h', rest, ra, sorted', sa')
    ensures sorted'.count == sorted.count + 1 && sorted'.tail == Ref(|h|) && |h'| == |h| + 1
  {
    h', sorted' := Append(h, sorted, Some(t), sa);
    sa' := sa + [|h|];
    AppendSeparate(h0, a, h, rest, ra, sorted, sa, h', sorted');
    OrderAppend(cmp, Data(h0, a), Data(h, ra), Data(h, sa), t);
  }

  /** `tmp = RemoveMin()`. */
  method TakeHalf(cmp: Comparator, ghost h0: Heap, ghost a: seq<nat>,
                  h: Heap, rest: DrugList, ghost ra: seq<nat>,
                  sorted: DrugList, ghost sa: seq<nat>)
    returns (h': Heap, rest': DrugList, tmp': Option<Drug>, ghost ra': seq<nat>)
    requires IsComparator(cmp)
    requires Appended(cmp, h0, a, h, rest, ra, sorted, sa)
    ensures SelectInvariant(cmp, h0, a, h', rest', ra', sorted, sa, tmp')
    ensures |ra'| + |Pending(tmp')| <= |ra|
    ensures |h'| == |h|
  {
    ghost var k;
    h', rest', tmp', ra', k := TakeMin(cmp, h, rest, ra);
    TakeSeparate(h0, a, h, rest, ra, sorted, sa, h', rest', ra');
    if tmp' == None {
      OrderEmpty(cmp, Data(h0, a), Data(h, sa));
    } else {
      OrderTake(cmp, Data(h0, a), Data(h, ra), Data(h, sa), k);
    }
  }

  /** Appending to the sorted list leaves the rest of the list alone. */
  lemma AppendSeparate(h0: Heap, a: seq<nat>, h: Heap, rest: DrugList, ra: seq<nat>,
                       sorted: DrugList, sa: seq<nat>, h1: Heap, sorted1: DrugList)
    requires Separate(h0, a, h, rest, ra, sorted, sa)
    requires Linked(h1, sorted1, sa + [|h|]) && sorted1.count == sorted.count + 1
    requires FramedBy(h, h1, sa)
    ensures Separate(h0, a, h1, rest, ra, sorted1, sa + [|h|])
    ensures Data(h1, ra) == Data(h, ra)
  {
    assert Disjoint(ra, sa) by {
      forall i, j | 0 <= i < |ra| && 0 <= j < |sa| ensures ra[i] != sa[j] {
        assert ra[i] in a && sa[j] in sa;
      }
    }
    ChainFramedBy(h, h1, rest.head, ra, sa);
  }

  /** Removing from the rest of the list leaves the sorted list alone. */
  lemma TakeSeparate(h0: Heap, a: seq<nat>, h1: Heap, rest: DrugList, ra: seq<nat>,
                     sorted: DrugList, sa: seq<nat>, h2: Heap, rest2: DrugList, ra2: seq<nat>)
    requires Separate(h0, a, h1, rest, ra, sorted, sa)
    requires Chain(h2, rest2.head, ra2) && (forall x :: x in ra2 ==> x in ra)
    requires FramedBy(h1, h2, ra) && |h2| == |h1|
    ensures Separate(h0, a, h2, rest2, ra2, sorted, sa)
    ensures Data(h2, sa) == Data(h1, sa)
  {
    assert Disjoint(sa, ra) by {
      forall i, j | 0 <= i < |sa| && 0 <= j < |ra| ensures sa[i] != ra[j] {
        assert ra[j] in a && sa[i] in sa;
      }
    }
    ChainFramedBy(h1, h2, sorted.head, sa, ra);
  }

  /** Taking out the first minimum starts the selection. */
  lemma OrderStart(cmp: Comparator, s0: seq<Drug>, k: nat)
    requires IsComparator(cmp)
    requires EarliestMin(cmp, s0, k)
    ensures SelectOrder(cmp, s0, Without(s0, k), [], Some(s0[k]))
  {
    MinRemoved(cmp, s0, k);
  }

  /** Appending the pending record keeps the selection in order. */
  lemma OrderAppend(cmp: Comparator, s0: seq<Drug>, rs: seq<Drug>, ss: seq<Drug>, t: Drug)
    requires IsComparator(cmp)
    requires SelectOrder(cmp, s0, rs, ss, Some(t))
    ensures AppendedOrder(cmp, s0, rs, ss + [t])
  {
    SortedSnoc(cmp, ss, t);
    assert multiset(ss + [t]) == multiset(ss) + multiset{t};
  }

  /** Taking out the next minimum keeps the selection in order. */
  lemma OrderTake(cmp: Comparator, s0: seq<Drug>, rs: seq<Drug>, ss: seq<Drug>, k: nat)
    requires IsComparator(cmp)
    requires AppendedOrder(cmp, s0, rs, ss)
    requires EarliestMin(cmp, rs, k)
    ensures SelectOrder(cmp, s0, Without(rs, k), ss, Some(rs[k]))
  {
    MinRemoved(cmp, rs, k);
  }

  /** With no record left nothing is pending. */
  lemma OrderEmpty(cmp: Comparator, s0: seq<Drug>, ss: seq<Drug>)
    requires AppendedOrder(cmp, s0, [], ss)
    ensures SelectOrder(cmp, s0, [], ss, None)
  {
  }

  /** The sequence insertion sort builds from `s`: by `InsertInOrder` as
      written, or by the corrected insertion when `fixed`. */
  function Built(cmp: Comparator, fixed: bool, s: seq<Drug>): seq<Drug>
  {
    if fixed then InsertAllFixed(cmp, s) else InsertAll(cmp, s)
  }

  /** The nodes of the two lists during `InsertSort`: no node of the starting
      heap has changed; the rest of the list is a chain of nodes from `a`
      that `RemoveFirst` drains; the sorted list is linked and made of fresh
      nodes. */
  ghost predicate InsertSeparate(h0: Heap, a: seq<nat>, h: Heap, rest: DrugList, ra: seq<nat>,
                                 sorted: DrugList, sa: seq<nat>)
  {
    && InHeap(h0, a)
    && FramedBy(h0, h, [])
    && Drainable(h, rest, ra)
    && (forall x :: x in ra ==> x in a)
    && Linked(h, sorted, sa)
    && (forall x :: x in sa ==> |h0| <= x)
  }

  /** The records of `InsertSort` each time it tests its loop condition:
      the first `j` starting records have been inserted, the next one is
      pending and the others are left, in order. */
  ghost predicate InsertOrder(cmp: Comparator, fixed: bool, s0: seq<Drug>, j: nat,
                              rs: seq<Drug>, ss: seq<Drug>, tmp: Option<Drug>, count: int)
  {
    && j <= |s0|
    && ss == Built(cmp, fixed, s0[..j])
    && count == j
    && (j < |s0| ==> tmp == Some(s0[j]) && rs == s0[j + 1..])
    && (j == |s0| ==> tmp == None && rs == [])
  }

  /** ... and once the pending record has been inserted. */
  ghost predicate InsertedOrder(cmp: Comparator, fixed: bool, s0: seq<Drug>, j: nat,
                                rs: seq<Drug>, ss: seq<Drug>, count: int)
  {
    && j <= |s0|
    && ss == Built(cmp, fixed, s0[..j])
    && count == j
    && rs == s0[j..]
  }

  ghost predicate InsertInvariant(cmp: Comparator, fixed: bool, h0: Heap, a: seq<nat>, j: nat,
                                  h: Heap, rest: DrugList, ra: seq<nat>,
                                  sorted: DrugList, sa: seq<nat>, tmp: Option<Drug>)
  {
    && InsertSeparate(h0, a, h, rest, ra, sorted, sa)
    && InsertOrder(cmp, fixed, Data(h0, a), j, Data(h, ra), Data(h, sa), tmp, sorted.count)
  }

  ghost predicate Inserted(cmp: Comparator, fixed: bool, h0: Heap, a: seq<nat>, j: nat,
                           h: Heap, rest: DrugList, ra: seq<nat>,
                           sorted: DrugList, sa: seq<nat>)
  {
    && InsertSeparate(h0, a, h, rest, ra, sorted, sa)
    && InsertedOrder(cmp, fixed, Data(h0, a), j, Data(h, ra), Data(h, sa), sorted.count)
  }

  /** `InsertSort`: the list becomes the records inserted one by one, as
      `InsertInOrder` is written, in their starting order. That is sorted,
      and holds every record but those that tie the running maximum; the
      count is the number of starting records, so the list is well formed
      exactly when none ties. No node of the starting heap changes. */
  method InsertSort(cmp: Comparator, h: Heap, l: DrugList, ghost a: seq<nat>)
    returns (h': Heap, l': DrugList, ghost a': seq<nat>)
    requires IsComparator(cmp)
    requires Drainable(h, l, a)
    ensures Linked(h', l', a') && l'.count == |a|
    ensures Data(h', a') == InsertAll(cmp, Data(h, a))
    ensures Sorted(cmp, Data(h', a'))
    ensures multiset(Data(h', a')) + multiset(Dropped(cmp, Data(h, a))) == multiset(Data(h, a))
    ensures Valid(h', l', a') <==> forall i :: 0 <= i < |a| ==> !TiesRunningMax(cmp, Data(h, a), i)
    ensures FramedBy(h, h', [])
  {
    ghost var j, ra, sa;
    var rest, sorted, tmp;
    h', rest, ra, sorted, sa, tmp, j := InsertStart(cmp, false, h, l, a);
    while tmp != None
      invariant InsertInvariant(cmp, false, h, a, j, h', rest, ra, sorted, sa, tmp)
      decreases |a| - j
    {
      h', rest, ra, sorted, sa, tmp, j := InsertTurn(cmp, false, h, a, j, h', rest, ra, sorted, sa, tmp);
    }
    InsertSortDone(cmp, h, a, j, h', rest, ra, sorted, sa);
    l' := DrugList(sorted.head, sorted.tail, sorted.count);
    a' := sa;
  }

  /** `InsertSort` with the corrected insertion: a well formed, sorted
      permutation of the records. */
  method InsertSortFixed(cmp: Comparator, h: Heap, l: DrugList, ghost a: seq<nat>)
    returns (h': Heap, l': DrugList, ghost a': seq<nat>)
    requires IsComparator(cmp)
    requires Drainable(h, l, a)
    ensures Valid(h', l', a') && |a'| == |a|
    ensures Data(h', a') == InsertAllFixed(cmp, Data(h, a))
    ensures Sorted(cmp, Data(h', a'))
    ensures multiset(Data(h', a')) == multiset(Data(h, a))
    ensures FramedBy(h, h', [])
  {
    ghost var j, ra, sa;
    var rest, sorted, tmp;
    h', rest, ra, sorted, sa, tmp, j := InsertStart(cmp, true, h, l, a);
    while tmp != None
      invariant InsertInvariant(cmp, true, h, a, j, h', rest, ra, sorted, sa, tmp)
      decreases |a| - j
    {
      h', rest, ra, sorted, sa, tmp, j := InsertTurn(cmp, true, h, a, j, h', rest, ra, sorted, sa, tmp);
    }
    InsertSortFixedDone(cmp, h, a, j, h', rest, ra, sorted, sa);
    l' := DrugList(sorted.head, sorted.tail, sorted.count);
    a' := sa;
  }

  /** One turn of the loop of either insertion sort: insert the pending
      record, then remove the next first record. */
  method InsertTurn(cmp: Comparator, fixed: bool, ghost h0: Heap, ghost a: seq<nat>, ghost j: nat,
                    h: Heap, rest: DrugList, ghost ra: seq<nat>,
                    sorted: DrugList, ghost sa: seq<nat>, tmp: Option<Drug>)
    returns (h': Heap, rest': DrugList, ghost ra': seq<nat>, sorted': DrugList, ghost sa': seq<nat>,
             tmp': Option<Drug>, ghost j': nat)
    requires IsComparator(cmp)
    requires InsertInvariant(cmp, fixed, h0, a, j, h, rest, ra, sorted, sa, tmp) && tmp != None
    ensures InsertInvariant(cmp, fixed, h0, a, j', h', rest', ra', sorted', sa', tmp')
    ensures j' == j + 1 && sorted'.count == sorted.count + 1
  {
    var h1;
    if fixed {
      h1, sorted', sa' := InsertHalfFixed(cmp, h0, a, j, h, rest, ra, sorted, sa, tmp.value);
    } else {
      h1, sorted', sa' := InsertHalf(cmp, h0, a, j, h, rest, ra, sorted, sa, tmp.value);
    }
    h', rest', ra', tmp', j' := FirstHalf(cmp, fixed, h0, a, j + 1, h1, rest, ra, sorted', sa');
  }

  /** When no record is pending, every starting record has been inserted. */
  lemma InsertDone(cmp: Comparator, fixed: bool, h0: Heap, a: seq<nat>, j: nat,
                   h: Heap, rest: DrugList, ra: seq<nat>, sorted: DrugList, sa: seq<nat>)
    requires InsertInvariant(cmp, fixed, h0, a, j, h, rest, ra, sorted, sa, None)
    ensures Linked(h, sorted, sa) && sorted.count == |a|
    ensures Data(h, sa) == Built(cmp, fixed, Data(h0, a))
    ensures FramedBy(h0, h, [])
  {
    assert Data(h0, a)[..j] == Data(h0, a);
  }

  /** The end of `InsertSort`. */
  lemma InsertSortDone(cmp: Comparator, h0: Heap, a: seq<nat>, j: nat,
                       h: Heap, rest: DrugList, ra: seq<nat>, sorted: DrugList, sa: seq<nat>)
    requires IsComparator(cmp)
    requires InsertInvariant(cmp, false, h0, a, j, h, rest, ra, sorted, sa, None)
    ensures Linked(h, sorted, sa) && sorted.count == |a|
    ensures Data(h, sa) == InsertAll(cmp, Data(h0, a))
    ensures Sorted(cmp, Data(h, sa))
    ensures multiset(Data(h, sa)) + multiset(Dropped(cmp, Data(h0, a))) == multiset(Data(h0, a))
    ensures Valid(h, sorted, sa) <==> forall i :: 0 <= i < |a| ==> !TiesRunningMax(cmp, Data(h0, a), i)
    ensures FramedBy(h0, h, [])
  {
    InsertDone(cmp, false, h0, a, j, h, rest, ra, sorted, sa);
    var s0 := Data(h0, a);
    InsertAllFacts(cmp, s0);
    DroppedEmpty(cmp, s0);
    assert |multiset(Data(h, sa))| + |multiset(Dropped(cmp, s0))| == |multiset(s0)|;
  }

  /** The end of `InsertSortFixed`. */
  lemma InsertSortFixedDone(cmp: Comparator, h0: Heap, a: seq<nat>, j: nat,
                            h: Heap, rest: DrugList, ra: seq<nat>, sorted: DrugList, sa: seq<nat>)
    requires IsComparator(cmp)
    requires InsertInvariant(cmp, true, h0, a, j, h, rest, ra, sorted, sa, None)
    ensures Valid(h, sorted, sa) && |sa| == |a|
    ensures Data(h, sa) == InsertAllFixed(cmp, Data(h0, a))
    ensures Sorted(cmp, Data(h, sa))
    ensures multiset(Data(h, sa)) == multiset(Data(h0, a))
    ensures FramedBy(h0, h, [])
  {
    InsertDone(cmp, true, h0, a, j, h, rest, ra, sorted, sa);
    InsertAllFixedSorted(cmp, Data(h0, a));
    assert |multiset(Data(h, sa))| == |multiset(Data(h0, a))|;
  }

  /** `DrugList sortedList = new DrugList(); Drug tmp = RemoveFirst();` */
  method InsertStart(cmp: Comparator, fixed: bool, h: Heap, l: DrugList, ghost a: seq<nat>)
    returns (h': Heap, rest: DrugList, ghost ra: seq<nat>, sorted: DrugList, ghost sa: seq<nat>,
             tmp: Option<Drug>, ghost j: nat)
    requires Drainable(h, l, a)
    ensures InsertInvariant(cmp, fixed, h, a, j, h', rest, ra, sorted, sa, tmp)
    ensures h' == h && sorted == Empty
  {
    h', sorted, sa, j := h, Empty, [], 0;
    rest, tmp := RemoveFirst(h, l, a);
    ra := if tmp == None then [] else a[1..];
    FirstTaken(cmp, fixed, h, a, rest, ra, tmp);
  }

  /** The state after the first `RemoveFirst` of `InsertSort`. */
  lemma FirstTaken(cmp: Comparator, fixed: bool, h: Heap, a: seq<nat>, rest: DrugList, ra: seq<nat>,
                   tmp: Option<Drug>)
    requires InHeap(h, a)
    requires Drainable(h, rest, ra)
    requires a == [] ==> tmp == None && ra == []
    requires a != [] ==> tmp == Some(Data(h, a)[0]) && ra == a[1..]
    ensures InsertInvariant(cmp, fixed, h, a, 0, h, rest, ra, Empty, [], tmp)
  {
    assert forall x :: x in ra ==> x in a;
    if a != [] {
      assert Data(h, ra) == Data(h, a)[1..];
    }
    OrderStartInsert(cmp, fixed, Data(h, a), Data(h, ra), tmp);
  }

  /** Taking the first record starts the insertions. */
  lemma OrderStartInsert(cmp: Comparator, fixed: bool, s0: seq<Drug>, rs: seq<Drug>, tmp: Option<Drug>)
    requires s0 == [] ==> tmp == None && rs == []
    requires s0 != [] ==> tmp == Some(s0[0]) && rs == s0[1..]
    ensures InsertOrder(cmp, fixed, s0, 0, rs, [], tmp, 0)
  {
    assert Built(cmp, fixed, s0[..0]) == [];
  }

  /** `sortedList.InsertInOrder(tmp)`. */
  method InsertHalf(cmp: Comparator, ghost h0: Heap, ghost a: seq<nat>, ghost j: nat,
                    h: Heap, rest: DrugList, ghost ra: seq<nat>,
                    sorted: DrugList, ghost sa: seq<nat>, t: Drug)
    returns (h': Heap, sorted': DrugList, ghost sa': seq<nat>)
    requires IsComparator(cmp)
    requires InsertInvariant(cmp, false, h0, a, j, h, rest, ra, sorted, sa, Some(t))
    ensures Inserted(cmp, false, h0, a, j + 1, h', rest, ra, sorted', sa')
    ensures sorted'.count == sorted.count + 1
  {
    h', sorted', sa' := InsertInOrder(cmp, h, sorted, t, sa);
    InsertKeepsRest(h0, a, h, rest, ra, sorted, sa, h', sorted', sa');
    OrderInsert(cmp, false, Data(h0, a), j, Data(h, ra), Data(h, sa), t, sorted.count);
  }

  /** The corrected `sortedList.InsertInOrder(tmp)`. */
  method InsertHalfFixed(cmp: Comparator, ghost h0: Heap, ghost a: seq<nat>, ghost j: nat,
                         h: Heap, rest: DrugList, ghost ra: seq<nat>,
                         sorted: DrugList, ghost sa: seq<nat>, t: Drug)
    returns (h': Heap, sorted': DrugList, ghost sa': seq<nat>)
    requires IsComparator(cmp)
    requires InsertInvariant(cmp, true, h0, a, j, h, rest, ra, sorted, sa, Some(t))
    ensures Inserted(cmp, true, h0, a, j + 1, h', rest, ra, sorted', sa')
    ensures sorted'.count == sorted.count + 1
  {
    h', sorted', sa' := InsertInOrderFixed(cmp, h, sorted, t, sa);
    InsertKeepsRest(h0, a, h, rest, ra, sorted, sa, h', sorted', sa');
    OrderInsert(cmp, true, Data(h0, a), j, Data(h, ra), Data(h, sa), t, sorted.count);
  }

  /** `tmp = RemoveFirst()`. */
  method FirstHalf(cmp: Comparator, fixed: bool, ghost h0: Heap, ghost a: seq<nat>, ghost j: nat,
                   h: Heap, rest: DrugList, ghost ra: seq<nat>,
                   sorted: DrugList, ghost sa: seq<nat>)
    returns (h': Heap, rest': DrugList, ghost ra': seq<nat>, tmp': Option<Drug>, ghost j': nat)
    requires Inserted(cmp, fixed, h0, a, j, h, rest, ra, sorted, sa)
    ensures InsertInvariant(cmp, fixed, h0, a, j', h', rest', ra', sorted, sa, tmp')
    ensures j' == j && h' == h
  {
    h', j' := h, j;
    rest', tmp' := RemoveFirst(h, rest, ra);
    ra' := if ra == [] then [] else ra[1..];
    if ra != [] {
      assert forall x :: x in ra' ==> x in ra;
      assert Data(h, ra') == Data(h, ra)[1..];
      assert Data(h0, a)[j + 1..] == Data(h0, a)[j..][1..];
    }
  }

  /** Inserting into the sorted list leaves the rest of the list and the
      starting heap alone. */
  lemma InsertKeepsRest(h0: Heap, a: seq<nat>, h: Heap, rest: DrugList, ra: seq<nat>,
                        sorted: DrugList, sa: seq<nat>, h1: Heap, sorted1: DrugList, sa1: seq<nat>)
    requires InsertSeparate(h0, a, h, rest, ra, sorted, sa)
    requires Linked(h1, sorted1, sa1)
    requires FramedBy(h, h1, sa)
    requires forall x :: x in sa1 ==> x in sa || |h| <= x
    ensures InsertSeparate(h0, a, h1, rest, ra, sorted1, sa1)
    ensures Data(h1, ra) == Data(h, ra)
  {
    assert Disjoint(ra, sa) by {
      forall i, j | 0 <= i < |ra| && 0 <= j < |sa| ensures ra[i] != sa[j] {
        assert ra[i] in a && sa[j] in sa;
      }
    }
    ChainFramedBy(h, h1, rest.head, ra, sa);
    forall x | 0 <= x < |h0| ensures h1[x] == h0[x] {
      assert x !in sa;
    }
  }

  /** Inserting the pending record takes one more starting record into the
      sequence built. */
  lemma OrderInsert(cmp: Comparator, fixed: bool, s0: seq<Drug>, j: nat,
                    rs: seq<Drug>, ss: seq<Drug>, t: Drug, count: int)
    requires InsertOrder(cmp, fixed, s0, j, rs, ss, Some(t), count)
    ensures InsertedOrder(cmp, fixed, s0, j + 1, rs, InsertOne(cmp, fixed, ss, t), count + 1)
  {
    assert s0[..j + 1][..j] == s0[..j];
  }
}
