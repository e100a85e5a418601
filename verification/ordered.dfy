/**
 What the list operations mean on the sequence of records a list holds, with
 no pointers in sight: sortedness, the earliest minimum, insertion just before
 the first strictly greater record — both as the list code actually behaves
 and as it was meant to — and the repeated insertion that insertion sort
 performs. Two records "tie" when the comparison answers 0 for their names,
 which it may do for names that differ.
 */
module Ordered {
  import opened Drugs

  /** Non-decreasing by name. */
  ghost predicate Sorted(cmp: Comparator, s: seq<Drug>) {
    forall i, j :: 0 <= i < j < |s| ==> cmp(s[i].name, s[j].name) <= 0
  }

  /** Index `k` holds a record no record compares less than, and every record
      before it compares strictly greater: the first minimum. */
  ghost predicate EarliestMin(cmp: Comparator, s: seq<Drug>, k: int) {
    && 0 <= k < |s|
    && (forall j :: 0 <= j < |s| ==> cmp(s[j].name, s[k].name) >= 0)
    && (forall j :: 0 <= j < k ==> cmp(s[j].name, s[k].name) > 0)
  }

  /** The scan of `RemoveMin` after looking at positions 1 to `i`: position
      `p + 1` holds the first minimum among them. */
  ghost predicate MinSoFar(cmp: Comparator, s: seq<Drug>, i: int, p: int) {
    && 0 <= i < |s| && 0 <= p && p + 1 < |s| && (p == 0 || p < i)
    && (forall j :: 1 <= j <= i ==> cmp(s[j].name, s[p + 1].name) >= 0)
    && (forall j :: 1 <= j <= p ==> cmp(s[j].name, s[p + 1].name) > 0)
  }

  /** A record strictly below the candidate becomes the new candidate. */
  lemma MinStep(cmp: Comparator, s: seq<Drug>, i: nat, p: nat)
    requires IsComparator(cmp)
    requires MinSoFar(cmp, s, i, p) && i + 1 < |s|
    requires cmp(s[p + 1].name, s[i + 1].name) == 1
    ensures MinSoFar(cmp, s, i + 1, i)
  {
    forall j | 1 <= j <= i
      ensures cmp(s[j].name, s[i + 1].name) > 0
    {
      LessLeq(cmp, s[i + 1].name, s[p + 1].name, s[j].name);
    }
  }

  /** Any other record leaves the candidate where it is. */
  lemma MinKeep(cmp: Comparator, s: seq<Drug>, i: nat, p: nat)
    requires IsComparator(cmp)
    requires MinSoFar(cmp, s, i, p) && i + 1 < |s|
    requires cmp(s[p + 1].name, s[i + 1].name) != 1
    ensures MinSoFar(cmp, s, i + 1, p)
  {
  }

  /** Once every position is scanned the candidate is the first minimum of
      everything after the head. */
  lemma MinDone(cmp: Comparator, s: seq<Drug>, p: nat)
    requires MinSoFar(cmp, s, |s| - 1, p)
    ensures EarliestMin(cmp, s[1..], p)
  {
    var t := s[1..];
    forall j | 0 <= j < |t| ensures cmp(t[j].name, t[p].name) >= 0 {
      assert t[j] == s[j + 1] && t[p] == s[p + 1];
    }
    forall j | 0 <= j < p ensures cmp(t[j].name, t[p].name) > 0 {
      assert t[j] == s[j + 1] && t[p] == s[p + 1];
    }
  }

  /** When the first minimum after the head is below the head, it is the
      first minimum of the whole sequence. */
  lemma MinAfterHead(cmp: Comparator, s: seq<Drug>, p: nat)
    requires IsComparator(cmp)
    requires |s| >= 2 && EarliestMin(cmp, s[1..], p)
    requires cmp(s[p + 1].name, s[0].name) == -1
    ensures EarliestMin(cmp, s, p + 1)
  {
    forall j | 0 < j < |s| ensures cmp(s[j].name, s[p + 1].name) >= 0 {
      assert s[1..][j - 1] == s[j];
    }
    forall j | 0 < j < p + 1 ensures cmp(s[j].name, s[p + 1].name) > 0 {
      assert s[1..][j - 1] == s[j];
    }
  }

  /** Otherwise the head itself is the first minimum. */
  lemma MinAtHead(cmp: Comparator, s: seq<Drug>, p: nat)
    requires IsComparator(cmp)
    requires |s| >= 2 && EarliestMin(cmp, s[1..], p)
    requires cmp(s[p + 1].name, s[0].name) != -1
    ensures EarliestMin(cmp, s, 0)
  {
    forall j | 0 < j < |s| ensures cmp(s[j].name, s[0].name) >= 0 {
      assert s[1..][j - 1] == s[j];
      Trans(cmp, s[0].name, s[p + 1].name, s[j].name);
    }
  }

  /** `s` with position `k` taken out. */
  function Without(s: seq<Drug>, k: nat): seq<Drug>
    requires k < |s|
  {
    s[..k] + s[k + 1..]
  }

  /** Taking out the first minimum leaves records that are all at least
      it, and the multiset loses exactly that record. */
  lemma MinRemoved(cmp: Comparator, s: seq<Drug>, k: nat)
    requires IsComparator(cmp)
    requires EarliestMin(cmp, s, k)
    ensures forall j :: 0 <= j < |s| - 1 ==> cmp(s[k].name, Without(s, k)[j].name) <= 0
    ensures multiset(s) == multiset(Without(s, k)) + multiset{s[k]}
  {
    var t := Without(s, k);
    forall j | 0 <= j < |t| ensures cmp(s[k].name, t[j].name) <= 0 {
      if j < k {
        assert t[j] == s[j];
      } else {
        assert t[j] == s[j + 1];
      }
    }
    assert s == s[..k] + [s[k]] + s[k + 1..];
  }

  /** A record at least the last of a sorted sequence extends it. */
  lemma SortedSnoc(cmp: Comparator, t: seq<Drug>, x: Drug)
    requires IsComparator(cmp)
    requires Sorted(cmp, t)
    requires t != [] ==> cmp(t[|t| - 1].name, x.name) <= 0
    ensures Sorted(cmp, t + [x])
  {
    var u := t + [x];
    forall i, j | 0 <= i < j < |u| ensures cmp(u[i].name, u[j].name) <= 0 {
      if j == |t| {
        assert u[i] == t[i] && u[j] == x;
        if i < |t| - 1 {
          Trans(cmp, t[i].name, t[|t| - 1].name, x.name);
        }
      } else {
        assert u[i] == t[i] && u[j] == t[j];
      }
    }
  }

  /** Position of the first record comparing greater (exactly 1) than `d`, or
      `|s|` when there is none. */
  function FirstGreater(cmp: Comparator, s: seq<Drug>, d: Drug): (k: nat)
    ensures k <= |s|
    ensures forall j :: 0 <= j < k ==> cmp(s[j].name, d.name) != 1
    ensures k < |s| ==> cmp(s[k].name, d.name) == 1
  {
    if s == [] then 0
    else if cmp(s[0].name, d.name) == 1 then 0
    else 1 + FirstGreater(cmp, s[1..], d)
  }

  /** Any position with the two defining properties is the first greater
      one. */
  lemma FirstGreaterUnique(cmp: Comparator, s: seq<Drug>, d: Drug, k: nat)
    requires k <= |s|
    requires forall j :: 0 <= j < k ==> cmp(s[j].name, d.name) != 1
    requires k < |s| ==> cmp(s[k].name, d.name) == 1
    ensures k == FirstGreater(cmp, s, d)
  {
  }

  /** The documented meaning of `InsertInOrder`: `d` goes just before the
      first record greater than it, or at the end when there is none. */
  function InsertBeforeGreater(cmp: Comparator, s: seq<Drug>, d: Drug): seq<Drug>
  {
    var k := FirstGreater(cmp, s, d);
    s[..k] + [d] + s[k..]
  }

  /** What `InsertInOrder` does to the sequence as the code is written: the
      head test, the tail test, then a scan that links `d` in only when it
      finds a greater record. */
  function InsertAsWritten(cmp: Comparator, s: seq<Drug>, d: Drug): (r: seq<Drug>)
    ensures r != []
    ensures r == s || exists k :: 0 <= k <= |s| && r == s[..k] + [d] + s[k..]
  {
    if s == [] then assert [d] == s[..0] + [d] + s[0..]; [d]
    else if cmp(s[0].name, d.name) == 1 then assert [d] + s == s[..0] + [d] + s[0..]; [d] + s
    else if cmp(s[|s| - 1].name, d.name) == -1 then
      assert s + [d] == s[..|s|] + [d] + s[|s|..]; s + [d]
    else
      var k := FirstGreater(cmp, s, d);
      if k < |s| then s[..k] + [d] + s[k..] else s
  }

  /** `InsertInOrder` with its tail test corrected: `d` goes after the tail
      unless the tail compares greater, so the scan always finds a greater
      record and nothing is lost. */
  function InsertFixed(cmp: Comparator, s: seq<Drug>, d: Drug): (r: seq<Drug>)
    ensures exists k :: 0 <= k <= |s| && r == s[..k] + [d] + s[k..]
  {
    if s == [] then assert [d] == s[..0] + [d] + s[0..]; [d]
    else if cmp(s[0].name, d.name) == 1 then assert [d] + s == s[..0] + [d] + s[0..]; [d] + s
    else if cmp(s[|s| - 1].name, d.name) != 1 then
      assert s + [d] == s[..|s|] + [d] + s[|s|..]; s + [d]
    else
      var k := FirstGreater(cmp, s, d);
      s[..k] + [d] + s[k..]
  }

  /** One insertion: by `InsertInOrder` as written, or corrected when
      `fixed`. */
  function InsertOne(cmp: Comparator, fixed: bool, s: seq<Drug>, d: Drug): seq<Drug>
  {
    if fixed then InsertFixed(cmp, s, d) else InsertAsWritten(cmp, s, d)
  }

  /** The corrected insertion adds exactly `d`, whatever the order of `s`. */
  lemma InsertFixedAddsOne(cmp: Comparator, s: seq<Drug>, d: Drug)
    ensures multiset(InsertFixed(cmp, s, d)) == multiset(s) + multiset{d}
    ensures |InsertFixed(cmp, s, d)| == |s| + 1
  {
    var k := FirstGreater(cmp, s, d);
    assert s == s[..k] + s[k..];
  }

  /** On a sorted sequence the corrected insertion is the documented one,
      and the result is sorted. */
  lemma InsertFixedSorted(cmp: Comparator, s: seq<Drug>, d: Drug)
    requires IsComparator(cmp)
    requires Sorted(cmp, s)
    ensures InsertFixed(cmp, s, d) == InsertBeforeGreater(cmp, s, d)
    ensures Sorted(cmp, InsertFixed(cmp, s, d))
  {
    if s == [] {
    } else if cmp(s[0].name, d.name) == 1 {
      assert FirstGreater(cmp, s, d) == 0;
      assert s[..0] + [d] + s[0..] == [d] + s;
    } else if cmp(s[|s| - 1].name, d.name) != 1 {
      NoneGreater(cmp, s, d);
      assert s[..|s|] + [d] + s[|s|..] == s + [d];
    }
    assert InsertFixed(cmp, s, d) == InsertBeforeGreater(cmp, s, d);
    InsertBeforeGreaterSorted(cmp, s, d);
  }

  /** When the last record of a sorted sequence is not greater than `d`,
      none is. */
  lemma NoneGreater(cmp: Comparator, s: seq<Drug>, d: Drug)
    requires IsComparator(cmp)
    requires Sorted(cmp, s) && s != []
    requires cmp(s[|s| - 1].name, d.name) != 1
    ensures FirstGreater(cmp, s, d) == |s|
  {
    forall j | 0 <= j < |s| ensures cmp(s[j].name, d.name) != 1 {
      if j < |s| - 1 {
        Trans(cmp, s[j].name, s[|s| - 1].name, d.name);
      }
    }
    FirstGreaterUnique(cmp, s, d, |s|);
  }

  /** Inserting before the first greater record keeps a sorted sequence
      sorted and adds exactly `d`. */
  lemma InsertBeforeGreaterSorted(cmp: Comparator, s: seq<Drug>, d: Drug)
    requires IsComparator(cmp)
    requires Sorted(cmp, s)
    ensures Sorted(cmp, InsertBeforeGreater(cmp, s, d))
    ensures multiset(InsertBeforeGreater(cmp, s, d)) == multiset(s) + multiset{d}
    ensures |InsertBeforeGreater(cmp, s, d)| == |s| + 1
  {
    var k := FirstGreater(cmp, s, d);
    assert s == s[..k] + s[k..];
    SortedSplice(cmp, s[..k], d, s[k..]);
  }

  /** `a + [d] + b` is sorted when `a` and `b` are, `a` ends at most `d`, and
      `b` starts strictly above `d`. */
  lemma SortedSplice(cmp: Comparator, a: seq<Drug>, d: Drug, b: seq<Drug>)
    requires IsComparator(cmp)
    requires Sorted(cmp, a + b)
    requires forall i :: 0 <= i < |a| ==> cmp(a[i].name, d.name) != 1
    requires b != [] ==> cmp(b[0].name, d.name) == 1
    ensures Sorted(cmp, a + [d] + b)
  {
    var t := a + [d] + b;
    var s := a + b;
    forall i, j | 0 <= i < j < |t| ensures cmp(t[i].name, t[j].name) <= 0 {
      if j < |a| {
        assert t[i] == s[i] && t[j] == s[j];
      } else if j == |a| {
        assert t[i] == a[i] && t[j] == d;
      } else if i == |a| {
        assert t[i] == d && t[j] == b[j - |a| - 1];
        assert cmp(d.name, b[0].name) == -1;
        if j - |a| - 1 > 0 {
          assert s[|a|] == b[0] && s[j - 1] == b[j - |a| - 1];
          LessLeq(cmp, d.name, b[0].name, b[j - |a| - 1].name);
        }
      } else if i < |a| {
        assert t[i] == s[i] && t[j] == s[j - 1];
      } else {
        assert t[i] == s[i - 1] && t[j] == s[j - 1];
      }
    }
  }

  /** On a sorted sequence that is empty or whose last record does not
      compare equal to `d`, the code behaves as documented. */
  lemma InsertAsWrittenNormal(cmp: Comparator, s: seq<Drug>, d: Drug)
    requires IsComparator(cmp)
    requires Sorted(cmp, s)
    requires s == [] || cmp(s[|s| - 1].name, d.name) != 0
    ensures InsertAsWritten(cmp, s, d) == InsertBeforeGreater(cmp, s, d)
  {
    if s != [] && cmp(s[0].name, d.name) != 1 && cmp(s[|s| - 1].name, d.name) == -1 {
      var k := FirstGreater(cmp, s, d);
      if k < |s| {
        LeqLess(cmp, s[k].name, s[|s| - 1].name, d.name);
      }
      assert s[..k] + [d] + s[k..] == s + [d];
    }
  }

  /** On a sorted non-empty sequence whose last record compares equal to
      `d`, the code leaves the sequence as it was: `d` is lost. */
  lemma InsertAsWrittenDropsTie(cmp: Comparator, s: seq<Drug>, d: Drug)
    requires IsComparator(cmp)
    requires Sorted(cmp, s)
    requires s != [] && cmp(s[|s| - 1].name, d.name) == 0
    ensures InsertAsWritten(cmp, s, d) == s
    ensures d !in multiset(s) ==> multiset(InsertAsWritten(cmp, s, d)) != multiset(s) + multiset{d}
  {
    Trans(cmp, s[0].name, s[|s| - 1].name, d.name);
    var k := FirstGreater(cmp, s, d);
    if k < |s| {
      Trans(cmp, s[k].name, s[|s| - 1].name, d.name);
    }
  }

  /** A concrete instance: one record named "Zinc", then a second record
      named "Zinc" — the second never reaches the list. */
  lemma InsertTieExample(p: Drug, q: Drug)
    requires p.name == "Zinc" && q.name == "Zinc" && p != q
    ensures InsertAsWritten(Ordinal, [p], q) == [p]
    ensures InsertBeforeGreater(Ordinal, [p], q) == [p, q]
  {
    OrdinalIsComparator();
    assert Ordinal(p.name, q.name) == 0 by { OrdinalRange(p.name, q.name); }
  }

  /** The drop needs sorted records: in the unsorted `[Alpha, Gamma, Beta]` a
      second "Beta" ties the tail, and the scan still links it in, before
      "Gamma". */
  lemma InsertUnsortedTieExample(a: Drug, c: Drug, b: Drug, d: Drug)
    requires a.name == "Alpha" && c.name == "Gamma" && b.name == "Beta" && d.name == "Beta"
    ensures InsertAsWritten(Ordinal, [a, c, b], d) == [a, d, c, b]
  {
    var s := [a, c, b];
    assert Ordinal(a.name, d.name) == -1;
    assert Ordinal(b.name, d.name) == 0 by { OrdinalRange(b.name, d.name); }
    assert Ordinal(c.name, d.name) == 1;
    assert FirstGreater(Ordinal, s, d) == 1 by { assert s[1..] == [c, b]; }
    assert s[..1] + [d] + s[1..] == [a, d, c, b];
  }

  /** Whatever the case, the code keeps a sorted sequence sorted. */
  lemma InsertAsWrittenSorted(cmp: Comparator, s: seq<Drug>, d: Drug)
    requires IsComparator(cmp)
    requires Sorted(cmp, s)
    ensures Sorted(cmp, InsertAsWritten(cmp, s, d))
  {
    if s == [] || cmp(s[|s| - 1].name, d.name) != 0 {
      InsertAsWrittenNormal(cmp, s, d);
      InsertBeforeGreaterSorted(cmp, s, d);
    } else {
      InsertAsWrittenDropsTie(cmp, s, d);
    }
  }

  /** `s[i]` ties the running maximum: no earlier record compares greater
      than it, and one compares equal to it. */
  ghost predicate TiesRunningMax(cmp: Comparator, s: seq<Drug>, i: int) {
    && 0 < i < |s|
    && (forall j :: 0 <= j < i ==> cmp(s[j].name, s[i].name) <= 0)
    && (exists j :: 0 <= j < i && cmp(s[j].name, s[i].name) == 0)
  }

  /** The sequence insertion sort builds: each record in turn inserted, as
      written, into the result of the previous ones. */
  function InsertAll(cmp: Comparator, s: seq<Drug>): (r: seq<Drug>)
    ensures |r| <= |s|
    ensures (r == []) == (s == [])
  {
    if s == [] then []
    else InsertAsWritten(cmp, InsertAll(cmp, s[..|s| - 1]), s[|s| - 1])
  }

  /** The sequence the corrected insertion sort builds. */
  function InsertAllFixed(cmp: Comparator, s: seq<Drug>): seq<Drug>
  {
    if s == [] then []
    else InsertFixed(cmp, InsertAllFixed(cmp, s[..|s| - 1]), s[|s| - 1])
  }

  /** Repeated corrected insertion yields a sorted permutation of its input. */
  lemma {:induction false} InsertAllFixedSorted(cmp: Comparator, s: seq<Drug>)
    requires IsComparator(cmp)
    ensures Sorted(cmp, InsertAllFixed(cmp, s))
    ensures multiset(InsertAllFixed(cmp, s)) == multiset(s)
  {
    if s != [] {
      var p, x := s[..|s| - 1], s[|s| - 1];
      InsertAllFixedSorted(cmp, p);
      InsertFixedSorted(cmp, InsertAllFixed(cmp, p), x);
      InsertFixedAddsOne(cmp, InsertAllFixed(cmp, p), x);
      assert s == p + [x];
    }
  }

  /** The records insertion sort loses, in input order. */
  ghost function Dropped(cmp: Comparator, s: seq<Drug>): seq<Drug>
  {
    if s == [] then []
    else Dropped(cmp, s[..|s| - 1]) + (if TiesRunningMax(cmp, s, |s| - 1) then [s[|s| - 1]] else [])
  }

  /** Repeated as-written insertion yields a sorted sequence holding every
      input record except exactly those that tie the running maximum; its
      last record is a maximum of the input. */
  lemma InsertAllFacts(cmp: Comparator, s: seq<Drug>)
    requires IsComparator(cmp)
    ensures Sorted(cmp, InsertAll(cmp, s))
    ensures multiset(InsertAll(cmp, s)) + multiset(Dropped(cmp, s)) == multiset(s)
    ensures (InsertAll(cmp, s) == []) == (s == [])
    ensures s != [] ==> forall j :: 0 <= j < |s| ==>
      cmp(s[j].name, InsertAll(cmp, s)[|InsertAll(cmp, s)| - 1].name) <= 0
  {
    InsertAllHolds(cmp, s);
  }

  lemma {:induction false} InsertAllHolds(cmp: Comparator, s: seq<Drug>)
    requires IsComparator(cmp)
    ensures InsertAllInvariant(cmp, s, InsertAll(cmp, s))
  {
    if s != [] {
      var p := s[..|s| - 1];
      var x := s[|s| - 1];
      assert s == p + [x];
      InsertAllHolds(cmp, p);
      var acc := InsertAll(cmp, p);
      assert InsertAll(cmp, s) == InsertAsWritten(cmp, acc, x);
      if acc != [] && cmp(acc[|acc| - 1].name, x.name) == 0 {
        InsertAsWrittenDropsTie(cmp, acc, x);
        InsertAllTie(cmp, p, x, acc);
      } else {
        InsertAsWrittenNormal(cmp, acc, x);
        InsertAllKeep(cmp, p, x, acc);
      }
    }
  }

  /** The facts `InsertAllFacts` carries from one prefix `s` of the input to
      the next, about the result `r` built from it. */
  ghost predicate InsertAllInvariant(cmp: Comparator, s: seq<Drug>, r: seq<Drug>) {
    && Sorted(cmp, r)
    && multiset(r) + multiset(Dropped(cmp, s)) == multiset(s)
    && (r == []) == (s == [])
    && (s != [] ==> forall j :: 0 <= j < |s| ==> cmp(s[j].name, r[|r| - 1].name) <= 0)
  }

  /** A record tying the last of the result so far is dropped. */
  lemma InsertAllTie(cmp: Comparator, p: seq<Drug>, x: Drug, acc: seq<Drug>)
    requires IsComparator(cmp) && InsertAllInvariant(cmp, p, acc)
    requires acc != [] && cmp(acc[|acc| - 1].name, x.name) == 0
    ensures InsertAllInvariant(cmp, p + [x], acc)
  {
    var s := p + [x];
    assert s[..|s| - 1] == p && s[|s| - 1] == x;
    assert multiset(acc) <= multiset(p);
    InsertStepTie(cmp, p, x, acc);
    assert Dropped(cmp, s) == Dropped(cmp, p) + [x];
    assert multiset(s) == multiset(p) + multiset{x};
    forall j | 0 <= j < |s| ensures cmp(s[j].name, acc[|acc| - 1].name) <= 0 {
      if j == |p| {
        assert s[j] == x;
      } else {
        assert s[j] == p[j];
      }
    }
  }

  /** Any other record is inserted before the first greater one. */
  lemma InsertAllKeep(cmp: Comparator, p: seq<Drug>, x: Drug, acc: seq<Drug>)
    requires IsComparator(cmp) && InsertAllInvariant(cmp, p, acc)
    requires acc == [] || cmp(acc[|acc| - 1].name, x.name) != 0
    ensures InsertAllInvariant(cmp, p + [x], InsertBeforeGreater(cmp, acc, x))
  {
    assert multiset(acc) <= multiset(p);
    InsertBeforeGreaterSorted(cmp, acc, x);
    InsertStepNoTie(cmp, p, x, acc);
    InsertStepMax(cmp, p, x, acc);
    KeepMultiset(cmp, p, x, acc);
  }

  lemma KeepMultiset(cmp: Comparator, p: seq<Drug>, x: Drug, acc: seq<Drug>)
    requires IsComparator(cmp) && Sorted(cmp, acc)
    requires multiset(acc) + multiset(Dropped(cmp, p)) == multiset(p)
    requires !TiesRunningMax(cmp, p + [x], |p|)
    ensures multiset(InsertBeforeGreater(cmp, acc, x)) + multiset(Dropped(cmp, p + [x])) == multiset(p + [x])
  {
    var s := p + [x];
    assert s[..|s| - 1] == p && s[|s| - 1] == x;
    InsertBeforeGreaterSorted(cmp, acc, x);
    assert Dropped(cmp, s) == Dropped(cmp, p);
    assert multiset(s) == multiset(p) + multiset{x};
  }

  /** A record that compares equal to the last record of the sorted prefix
      result ties the running maximum. */
  lemma InsertStepTie(cmp: Comparator, p: seq<Drug>, x: Drug, acc: seq<Drug>)
    requires IsComparator(cmp)
    requires acc != [] && multiset(acc) <= multiset(p)
    requires forall j :: 0 <= j < |p| ==> cmp(p[j].name, acc[|acc| - 1].name) <= 0
    requires cmp(acc[|acc| - 1].name, x.name) == 0
    ensures TiesRunningMax(cmp, p + [x], |p|)
  {
    var s := p + [x];
    var m := acc[|acc| - 1];
    assert m in multiset(acc);
    var w :| 0 <= w < |p| && p[w] == m;
    assert s[w] == m && s[|p|] == x;
    forall j | 0 <= j < |p| ensures cmp(s[j].name, x.name) <= 0 {
      assert s[j] == p[j];
      Trans(cmp, p[j].name, m.name, x.name);
    }
  }

  /** A record that does not compare equal to the last record of the sorted
      prefix result does not tie the running maximum. */
  lemma InsertStepNoTie(cmp: Comparator, p: seq<Drug>, x: Drug, acc: seq<Drug>)
    requires IsComparator(cmp)
    requires (acc == []) == (p == []) && multiset(acc) <= multiset(p)
    requires acc != [] ==> forall j :: 0 <= j < |p| ==> cmp(p[j].name, acc[|acc| - 1].name) <= 0
    requires acc == [] || cmp(acc[|acc| - 1].name, x.name) != 0
    ensures !TiesRunningMax(cmp, p + [x], |p|)
  {
    var s := p + [x];
    assert s[|p|] == x;
    if acc != [] {
      var m := acc[|acc| - 1];
      assert m in multiset(acc);
      var w :| 0 <= w < |p| && p[w] == m;
      assert s[w] == m;
      if TiesRunningMax(cmp, s, |p|) {
        var v :| 0 <= v < |p| && cmp(s[v].name, x.name) == 0;
        assert s[v] == p[v];
        Trans(cmp, x.name, p[v].name, m.name);
        assert false;
      }
    }
  }

  /** After such a record is inserted the last record is again a maximum of
      everything seen. */
  lemma InsertStepMax(cmp: Comparator, p: seq<Drug>, x: Drug, acc: seq<Drug>)
    requires IsComparator(cmp)
    requires Sorted(cmp, acc) && (acc == []) == (p == [])
    requires acc != [] ==> forall j :: 0 <= j < |p| ==> cmp(p[j].name, acc[|acc| - 1].name) <= 0
    requires acc == [] || cmp(acc[|acc| - 1].name, x.name) != 0
    ensures var r := InsertBeforeGreater(cmp, acc, x);
      r != [] && forall j :: 0 <= j < |p| + 1 ==> cmp((p + [x])[j].name, r[|r| - 1].name) <= 0
  {
    var s := p + [x];
    assert s[|p|] == x;
    var k := FirstGreater(cmp, acc, x);
    var r := acc[..k] + [x] + acc[k..];
    if k < |acc| {
      assert r[|r| - 1] == acc[|acc| - 1];
      LessLeq(cmp, x.name, acc[k].name, acc[|acc| - 1].name);
      forall j | 0 <= j < |p| + 1 ensures cmp(s[j].name, r[|r| - 1].name) <= 0 {
        if j < |p| {
          assert s[j] == p[j];
        }
      }
    } else {
      assert r[|r| - 1] == x;
      forall j | 0 <= j < |p| ensures cmp(s[j].name, x.name) <= 0 {
        assert s[j] == p[j];
        Trans(cmp, p[j].name, acc[|acc| - 1].name, x.name);
      }
    }
  }

  /** Nothing is lost exactly when no record ties the running maximum. */
  lemma {:induction false} DroppedEmpty(cmp: Comparator, s: seq<Drug>)
    ensures Dropped(cmp, s) == [] <==> forall i :: 0 <= i < |s| ==> !TiesRunningMax(cmp, s, i)
  {
    if s != [] {
      var p := s[..|s| - 1];
      DroppedEmpty(cmp, p);
      forall i | 0 <= i < |p| ensures TiesRunningMax(cmp, s, i) == TiesRunningMax(cmp, p, i) {
        assert forall j :: 0 <= j <= i ==> s[j] == p[j];
      }
    }
  }

  /** When no two records compare equal, no record can tie an earlier one.
      Different names are not enough: the comparison may answer 0 for two
      different names. */
  lemma NoEqualPairNoTies(cmp: Comparator, s: seq<Drug>)
    requires forall i, j :: 0 <= i < j < |s| ==> cmp(s[i].name, s[j].name) != 0
    ensures forall i :: 0 <= i < |s| ==> !TiesRunningMax(cmp, s, i)
  {
  }

  /** When no two records compare equal, repeated as-written insertion yields a
      sorted permutation of its input. */
  lemma NoEqualPairKeepAll(cmp: Comparator, s: seq<Drug>)
    requires IsComparator(cmp)
    requires forall i, j :: 0 <= i < j < |s| ==> cmp(s[i].name, s[j].name) != 0
    ensures Sorted(cmp, InsertAll(cmp, s))
    ensures multiset(InsertAll(cmp, s)) == multiset(s)
  {
    NoEqualPairNoTies(cmp, s);
    DroppedEmpty(cmp, s);
    InsertAllFacts(cmp, s);
  }
}
