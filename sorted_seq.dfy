/**
 * The abstract view of a sorted list: a sequence of elements in ascending
 * `Compare` order, and what each list operation does to that sequence.
 *
 * These are the specifications the list's methods are proved against; the
 * lemmas here state what the source promises about them (sortedness is kept,
 * nothing is lost or invented, the result does not depend on insertion order,
 * `merge` is the sorted merge, `filter` keeps exactly the matching elements).
 */
module SortedSeq {
  import opened Element

  /** Every element may stand before every later one. */
  predicate Sorted(s: seq<Elem>) {
    forall i, j :: 0 <= i < j < |s| ==> Le(s[i], s[j])
  }

  /** Every element has kind `k`. */
  predicate OfKind(s: seq<Elem>, k: Kind) {
    forall e :: e in s ==> KindOf(e) == k
  }

  /** All elements have one kind (that of the first): the sequence could be held by one list. */
  predicate Uniform(s: seq<Elem>) {
    s == [] || OfKind(s, KindOf(s[0]))
  }

  /** The kind a fresh list locks on after adding `s` in order. */
  function FirstKind(s: seq<Elem>): Option<Kind> {
    if s == [] then None else Some(KindOf(s[0]))
  }

  /** The kind check of `add`: an unlocked list accepts anything, a locked one only its kind. */
  predicate Admits(lock: Option<Kind>, v: Elem) {
    lock.None? || lock.value == KindOf(v)
  }

  /** A prefix of a sequence of one kind is of one kind. */
  lemma UniformPrefix(s: seq<Elem>, n: nat)
    requires Uniform(s) && n <= |s|
    ensures Uniform(s[..n])
  {
    forall e | e in s[..n] ensures e in s {
    }
  }

  // ---------------------------------------------------------------------
  // Sequence shapes the proofs below rewrite with

  lemma ConsSplit(s: seq<Elem>)
    requires s != []
    ensures s == [s[0]] + s[1..]
  {
  }

  lemma SnocSplit(s: seq<Elem>)
    requires s != []
    ensures s == s[..|s| - 1] + [s[|s| - 1]]
  {
  }

  lemma AppendAssoc(a: seq<Elem>, b: seq<Elem>, c: seq<Elem>)
    ensures a + (b + c) == (a + b) + c
  {
  }

  lemma TakeSnoc(s: seq<Elem>, i: nat)
    requires i < |s|
    ensures s[..i + 1] == s[..i] + [s[i]]
  {
  }

  lemma TakeAll(s: seq<Elem>)
    ensures s[..|s|] == s
  {
  }

  lemma TakeAppend(a: seq<Elem>, b: seq<Elem>, n: nat)
    requires n <= |b|
    ensures (a + b)[..|a| + n] == a + b[..n]
  {
  }

  /** Cutting `[x] + t` after `k + 1` elements cuts `t` after `k`. */
  lemma ConsCut(x: Elem, t: seq<Elem>, k: nat)
    requires k <= |t|
    ensures ([x] + t)[..k + 1] == [x] + t[..k] && ([x] + t)[k + 1..] == t[k..]
  {
  }

  /** Dropping position `k` of `t` behind a head is dropping position `k + 1` of the whole. */
  lemma ConsDropAt(x: Elem, t: seq<Elem>, k: nat)
    requires k < |t|
    ensures [x] + (t[..k] + t[k + 1..]) == ([x] + t)[..k + 1] + ([x] + t)[k + 2..]
  {
    ConsCut(x, t, k);
    ConsCut(x, t, k + 1);
    AppendAssoc([x], t[..k], t[k + 1..]);
  }

  /** Taking away the first element takes it out of the multiset. */
  lemma MultisetTail(s: seq<Elem>)
    requires s != []
    ensures multiset(s[1..]) == multiset(s) - multiset{s[0]}
  {
    ConsSplit(s);
    assert multiset(s) == multiset([s[0]]) + multiset(s[1..]);
  }

  // ---------------------------------------------------------------------
  // Sortedness

  lemma AdjacentChain(s: seq<Elem>, i: nat, j: nat)
    requires forall k :: 0 < k < |s| ==> Le(s[k - 1], s[k])
    requires i <= j < |s|
    ensures Le(s[i], s[j])
    decreases j - i
  {
    if i == j {
      CompareZero(s[i], s[j]);
    } else {
      AdjacentChain(s, i, j - 1);
      CompareTrans(s[i], s[j - 1], s[j]);
    }
  }

  /** Sorted is the same as "every adjacent pair is in order". */
  lemma SortedIffAdjacent(s: seq<Elem>)
    ensures Sorted(s) <==> forall k :: 0 < k < |s| ==> Le(s[k - 1], s[k])
  {
    if forall k :: 0 < k < |s| ==> Le(s[k - 1], s[k]) {
      forall i, j | 0 <= i < j < |s| ensures Le(s[i], s[j]) {
        AdjacentChain(s, i, j);
      }
    }
  }

  /** The first element of a sorted sequence is its minimum. */
  lemma SortedFirstMin(s: seq<Elem>, x: Elem)
    requires Sorted(s) && x in s
    ensures Le(s[0], x)
  {
    var j :| 0 <= j < |s| && s[j] == x;
    if j == 0 {
      CompareZero(x, x);
    }
  }

  /** The last element of a sorted sequence is its maximum. */
  lemma SortedLastMax(s: seq<Elem>, x: Elem)
    requires Sorted(s) && x in s
    ensures Le(x, s[|s| - 1])
  {
    var j :| 0 <= j < |s| && s[j] == x;
    if j == |s| - 1 {
      CompareZero(x, x);
    }
  }

  /** Once an element compares greater than `v`, `v` cannot occur from there on. */
  lemma SortedPast(s: seq<Elem>, i: nat, v: Elem)
    requires Sorted(s) && i < |s| && Compare(s[i], v) > 0
    ensures v !in s[i..]
  {
    if v in s[i..] {
      var j :| i <= j < |s| && s[j] == v;
      if j == i {
        CompareZero(s[i], v);
      }
      assert false;
    }
  }

  lemma SortedCons(h: Elem, t: seq<Elem>)
    requires Sorted(t)
    requires forall x :: x in t ==> Le(h, x)
    ensures Sorted([h] + t)
  {
    var r := [h] + t;
    forall i, j | 0 <= i < j < |r| ensures Le(r[i], r[j]) {
      if i == 0 {
        assert r[j] == t[j - 1] && t[j - 1] in t;
      } else {
        assert r[i] == t[i - 1] && r[j] == t[j - 1];
      }
    }
  }

  lemma SortedSnoc(t: seq<Elem>, x: Elem)
    requires Sorted(t)
    requires forall e :: e in t ==> Le(e, x)
    ensures Sorted(t + [x])
  {
    var r := t + [x];
    forall i, j | 0 <= i < j < |r| ensures Le(r[i], r[j]) {
      if j == |t| {
        assert r[i] == t[i] && t[i] in t;
      }
    }
  }

  /** The tail of a sorted sequence is sorted and lies at or above the head. */
  lemma SortedTail(s: seq<Elem>)
    requires Sorted(s) && s != []
    ensures Sorted(s[1..])
    ensures forall x :: x in s[1..] ==> Le(s[0], x)
  {
    forall x | x in s[1..] ensures Le(s[0], x) {
      var j :| 0 <= j < |s| - 1 && s[1..][j] == x;
      assert s[j + 1] == x;
    }
  }

  /**
   * Two sorted sequences with the same elements (counted with multiplicity)
   * are equal: there is only one sorted arrangement of a multiset.
   */
  lemma {:induction false} SortedUnique(a: seq<Elem>, b: seq<Elem>)
    requires Sorted(a) && Sorted(b)
    requires multiset(a) == multiset(b)
    ensures a == b
  {
    if a == [] {
      assert |b| == |multiset(b)| == 0;
    } else {
      assert |b| == |multiset(b)| == |multiset(a)| == |a|;
      assert a[0] in multiset(b) && b[0] in multiset(a);
      SortedFirstMin(b, a[0]);
      SortedFirstMin(a, b[0]);
      CompareAntisym(a[0], b[0]);
      CompareZero(a[0], b[0]);
      MultisetTail(a);
      MultisetTail(b);
      SortedTail(a);
      SortedTail(b);
      SortedUnique(a[1..], b[1..]);
      ConsSplit(a);
      ConsSplit(b);
    }
  }

  // ---------------------------------------------------------------------
  // Insertion (add)

  /** The insertion point of `add`: the first index whose element is not below `v`, or the end. */
  function InsertAt(s: seq<Elem>, v: Elem): (k: nat)
    ensures k <= |s|
    ensures forall j :: 0 <= j < k ==> Compare(v, s[j]) > 0
    ensures k < |s| ==> Compare(v, s[k]) <= 0
  {
    if s == [] then 0
    else if Compare(v, s[0]) <= 0 then 0
    else 1 + InsertAt(s[1..], v)
  }

  /** The sequence after `add(v)`: `v` placed in front of the first element not below it. */
  function Insert(s: seq<Elem>, v: Elem): (r: seq<Elem>)
    ensures |r| == |s| + 1
  {
    if s == [] then [v]
    else if Compare(v, s[0]) <= 0 then [v] + s
    else [s[0]] + Insert(s[1..], v)
  }

  /** `add(v)` adds one `v` and keeps every other element. */
  lemma {:induction false} InsertPerm(s: seq<Elem>, v: Elem)
    ensures multiset(Insert(s, v)) == multiset(s) + multiset{v}
  {
    if s != [] && Compare(v, s[0]) > 0 {
      InsertPerm(s[1..], v);
      ConsSplit(s);
    }
  }

  /** `add(v)` holds `v` and what was there, and nothing else. */
  lemma {:induction false} InsertMembers(s: seq<Elem>, v: Elem, x: Elem)
    ensures x in Insert(s, v) <==> x == v || x in s
  {
    if s != [] && Compare(v, s[0]) > 0 {
      InsertMembers(s[1..], v, x);
      ConsSplit(s);
    }
  }

  /** `add(v)` puts `v` exactly at the insertion point and shifts the rest. */
  lemma {:induction false} InsertSplit(s: seq<Elem>, v: Elem)
    ensures Insert(s, v) == s[..InsertAt(s, v)] + [v] + s[InsertAt(s, v)..]
  {
    if s == [] || Compare(v, s[0]) <= 0 {
      assert s[..0] == [] && s[0..] == s;
    } else {
      var t := s[1..];
      var k := InsertAt(t, v);
      InsertSplit(t, v);
      ConsSplit(s);
      ConsCut(s[0], t, k);
      AppendAssoc([s[0]], t[..k] + [v], t[k..]);
      AppendAssoc([s[0]], t[..k], [v]);
    }
  }

  /** `add` keeps a sorted sequence sorted. */
  lemma {:induction false} InsertSorted(s: seq<Elem>, v: Elem)
    requires Sorted(s)
    ensures Sorted(Insert(s, v))
  {
    if s == [] {
    } else if Compare(v, s[0]) <= 0 {
      forall x | x in s ensures Le(v, x) {
        SortedFirstMin(s, x);
        CompareTrans(v, s[0], x);
      }
      SortedCons(v, s);
    } else {
      var t := s[1..];
      SortedTail(s);
      InsertSorted(t, v);
      CompareAntisym(v, s[0]);
      forall x | x in Insert(t, v) ensures Le(s[0], x) {
        InsertMembers(t, v, x);
      }
      SortedCons(s[0], Insert(t, v));
    }
  }

  /** Adding a value of the locked kind keeps every element of that kind. */
  lemma InsertOfKind(s: seq<Elem>, v: Elem, k: Kind)
    requires OfKind(s, k) && KindOf(v) == k
    ensures OfKind(Insert(s, v), k)
  {
    forall e | e in Insert(s, v) ensures KindOf(e) == k {
      InsertMembers(s, v, e);
    }
  }

  /** An equal value goes in front of the values equal to it: it lands at the first one. */
  lemma InsertBeforeEqual(s: seq<Elem>, v: Elem, i: nat)
    requires Sorted(s) && i < |s| && s[i] == v
    ensures InsertAt(s, v) <= i
    ensures forall j :: InsertAt(s, v) <= j < |s| ==> Le(v, s[j])
  {
    var k := InsertAt(s, v);
    if i < k {
      CompareZero(v, s[i]);
    }
    forall j | k <= j < |s| ensures Le(v, s[j]) {
      if k < j {
        CompareTrans(v, s[k], s[j]);
      }
    }
  }

  // ---------------------------------------------------------------------
  // Removal (remove)

  /** The position of the first element equal to `v`, or the end. */
  function IndexOf(s: seq<Elem>, v: Elem): (k: nat)
    ensures k <= |s|
    ensures forall j :: 0 <= j < k ==> s[j] != v
    ensures k < |s| ==> s[k] == v
    ensures k == |s| <==> v !in s
  {
    if s == [] then 0
    else if s[0] == v then 0
    else 1 + IndexOf(s[1..], v)
  }

  /** The sequence after `remove(v)`: the first element equal to `v` dropped, if any. */
  function Delete(s: seq<Elem>, v: Elem): (r: seq<Elem>)
    ensures |r| <= |s|
  {
    if s == [] then []
    else if s[0] == v then s[1..]
    else [s[0]] + Delete(s[1..], v)
  }

  /** `remove(v)` shortens the sequence exactly when `v` occurs in it. */
  lemma {:induction false} DeleteLength(s: seq<Elem>, v: Elem)
    ensures |Delete(s, v)| == if v in s then |s| - 1 else |s|
    ensures v !in s ==> Delete(s, v) == s
  {
    if s != [] && s[0] != v {
      DeleteLength(s[1..], v);
      assert s == [s[0]] + s[1..];
      assert v in s <==> v in s[1..];
    }
  }

  /** `remove(v)` takes away one `v`, if there is one, and keeps every other element. */
  lemma {:induction false} DeletePerm(s: seq<Elem>, v: Elem)
    ensures multiset(Delete(s, v)) == multiset(s) - multiset{v}
  {
    if s != [] {
      ConsSplit(s);
      if s[0] != v {
        DeletePerm(s[1..], v);
      }
    }
  }

  /** `remove(v)` invents nothing. */
  lemma {:induction false} DeleteMembers(s: seq<Elem>, v: Elem, x: Elem)
    ensures x in Delete(s, v) ==> x in s
  {
    if s != [] {
      ConsSplit(s);
      if s[0] != v {
        DeleteMembers(s[1..], v, x);
      }
    }
  }

  /** `remove(v)` drops exactly the element at the first position holding `v`. */
  lemma {:induction false} DeleteSplit(s: seq<Elem>, v: Elem)
    ensures v in s ==> Delete(s, v) == s[..IndexOf(s, v)] + s[IndexOf(s, v) + 1..]
  {
    if s != [] && s[0] == v {
      assert IndexOf(s, v) == 0 && s[..0] == [];
    } else if s != [] && v in s {
      var t := s[1..];
      var k := IndexOf(t, v);
      assert IndexOf(s, v) == k + 1 && k < |t|;
      DeleteSplit(t, v);
      ConsSplit(s);
      ConsDropAt(s[0], t, k);
    }
  }

  /** `remove` keeps a sorted sequence sorted. */
  lemma {:induction false} DeleteSorted(s: seq<Elem>, v: Elem)
    requires Sorted(s)
    ensures Sorted(Delete(s, v))
  {
    if s != [] {
      SortedTail(s);
      if s[0] != v {
        DeleteSorted(s[1..], v);
        forall x | x in Delete(s[1..], v) ensures Le(s[0], x) {
          DeleteMembers(s[1..], v, x);
        }
        SortedCons(s[0], Delete(s[1..], v));
      }
    }
  }

  lemma DeleteOfKind(s: seq<Elem>, v: Elem, k: Kind)
    requires OfKind(s, k)
    ensures OfKind(Delete(s, v), k)
  {
    forall e | e in Delete(s, v) ensures KindOf(e) == k {
      DeleteMembers(s, v, e);
    }
  }

  // ---------------------------------------------------------------------
  // Building a list by adding values one at a time (constructor, fromArray)

  /** The sequence of a fresh list after adding `xs` left to right. */
  function BuildSorted(xs: seq<Elem>): (r: seq<Elem>)
    ensures |r| == |xs|
  {
    if xs == [] then [] else Insert(BuildSorted(xs[..|xs| - 1]), xs[|xs| - 1])
  }

  lemma BuildSortedSnoc(xs: seq<Elem>, v: Elem)
    ensures BuildSorted(xs + [v]) == Insert(BuildSorted(xs), v)
  {
    assert (xs + [v])[..|xs|] == xs;
  }

  /** Adding values one at a time yields a sorted sequence. */
  lemma {:induction false} BuildSortedSorted(xs: seq<Elem>)
    ensures Sorted(BuildSorted(xs))
  {
    if xs != [] {
      BuildSortedSorted(xs[..|xs| - 1]);
      InsertSorted(BuildSorted(xs[..|xs| - 1]), xs[|xs| - 1]);
    }
  }

  /** Adding values one at a time keeps every one of them, duplicates included. */
  lemma {:induction false} BuildSortedPerm(xs: seq<Elem>)
    ensures multiset(BuildSorted(xs)) == multiset(xs)
  {
    if xs != [] {
      var init, last := xs[..|xs| - 1], xs[|xs| - 1];
      BuildSortedPerm(init);
      InsertPerm(BuildSorted(init), last);
      SnocSplit(xs);
      assert multiset(xs) == multiset(init) + multiset([last]);
    }
  }

  /** Building from an already sorted sequence gives that sequence back. */
  lemma BuildSortedOfSorted(xs: seq<Elem>)
    requires Sorted(xs)
    ensures BuildSorted(xs) == xs
  {
    BuildSortedSorted(xs);
    BuildSortedPerm(xs);
    SortedUnique(BuildSorted(xs), xs);
  }

  /** The order in which values are added does not matter. */
  lemma BuildSortedOrderFree(xs: seq<Elem>, ys: seq<Elem>)
    requires multiset(xs) == multiset(ys)
    ensures BuildSorted(xs) == BuildSorted(ys)
  {
    BuildSortedSorted(xs);
    BuildSortedPerm(xs);
    BuildSortedSorted(ys);
    BuildSortedPerm(ys);
    SortedUnique(BuildSorted(xs), BuildSorted(ys));
  }

  /** A fresh list accepts `xs` exactly when all of it has one kind. */
  lemma UniformSnoc(s: seq<Elem>, v: Elem)
    requires Uniform(s)
    ensures Uniform(s + [v]) <==> Admits(FirstKind(s), v)
  {
    if s != [] {
      assert (s + [v])[0] == s[0] && v in s + [v];
      forall e | e in s + [v] && e != v ensures e in s {
      }
    }
  }

  /**
   * One more `add` on a fresh list that was fed `items`: it is accepted
   * exactly when the kinds stay uniform, and then the list is the fold one
   * step further, locked on the kind of `v`.
   */
  lemma BuildStep(items: seq<Elem>, v: Elem)
    requires Uniform(items)
    ensures Uniform(items + [v]) <==> Admits(FirstKind(items), v)
    ensures BuildSorted(items + [v]) == Insert(BuildSorted(items), v)
    ensures Admits(FirstKind(items), v) ==> FirstKind(items + [v]) == Some(KindOf(v))
  {
    UniformSnoc(items, v);
    BuildSortedSnoc(items, v);
    if items != [] {
      assert (items + [v])[0] == items[0];
    }
  }

  // ---------------------------------------------------------------------
  // Merge

  /** The textbook merge of two sorted sequences, keeping duplicates; the left one wins ties. */
  function MergeSorted(a: seq<Elem>, b: seq<Elem>): seq<Elem>
    decreases |a| + |b|
  {
    if a == [] then b
    else if b == [] then a
    else if Le(a[0], b[0]) then [a[0]] + MergeSorted(a[1..], b)
    else [b[0]] + MergeSorted(a, b[1..])
  }

  lemma {:induction false} MergeSortedPerm(a: seq<Elem>, b: seq<Elem>)
    ensures multiset(MergeSorted(a, b)) == multiset(a) + multiset(b)
    decreases |a| + |b|
  {
    if a != [] && b != [] {
      if Le(a[0], b[0]) {
        MergeSortedPerm(a[1..], b);
        ConsSplit(a);
      } else {
        MergeSortedPerm(a, b[1..]);
        ConsSplit(b);
      }
    }
  }

  lemma {:induction false} MergeSortedSorted(a: seq<Elem>, b: seq<Elem>)
    requires Sorted(a) && Sorted(b)
    ensures Sorted(MergeSorted(a, b))
    decreases |a| + |b|
  {
    if a != [] && b != [] {
      if Le(a[0], b[0]) {
        var m := MergeSorted(a[1..], b);
        MergeSortedSorted(a[1..], b);
        MergeSortedPerm(a[1..], b);
        forall x | x in m ensures Le(a[0], x) {
          assert x in multiset(a[1..]) + multiset(b);
          if x in a[1..] {
            SortedFirstMin(a, x);
          } else {
            SortedFirstMin(b, x);
            CompareTrans(a[0], b[0], x);
          }
        }
        SortedCons(a[0], m);
      } else {
        var m := MergeSorted(a, b[1..]);
        MergeSortedSorted(a, b[1..]);
        MergeSortedPerm(a, b[1..]);
        CompareAntisym(a[0], b[0]);
        forall x | x in m ensures Le(b[0], x) {
          assert x in multiset(a) + multiset(b[1..]);
          if x in b[1..] {
            SortedFirstMin(b, x);
          } else {
            SortedFirstMin(a, x);
            CompareTrans(b[0], a[0], x);
          }
        }
        SortedCons(b[0], m);
      }
    }
  }

  /** Adding all of `a` and then all of `b` to a fresh list gives the sorted merge of the two. */
  lemma BuildSortedIsMerge(a: seq<Elem>, b: seq<Elem>)
    requires Sorted(a) && Sorted(b)
    ensures BuildSorted(a + b) == MergeSorted(a, b)
  {
    BuildSortedSorted(a + b);
    BuildSortedPerm(a + b);
    MergeSortedSorted(a, b);
    MergeSortedPerm(a, b);
    SortedUnique(BuildSorted(a + b), MergeSorted(a, b));
  }

  // ---------------------------------------------------------------------
  // Filter

  /** The elements of `s` that satisfy `p`, in their order in `s`. */
  function FilterSeq(p: Elem -> bool, s: seq<Elem>): (r: seq<Elem>)
    ensures |r| <= |s|
    ensures forall i :: 0 <= i < |r| ==> p(r[i])
  {
    if s == [] then []
    else FilterSeq(p, s[..|s| - 1]) + (if p(s[|s| - 1]) then [s[|s| - 1]] else [])
  }

  lemma FilterSnoc(p: Elem -> bool, s: seq<Elem>, v: Elem)
    ensures FilterSeq(p, s + [v]) == FilterSeq(p, s) + (if p(v) then [v] else [])
  {
    assert (s + [v])[..|s|] == s;
  }

  /** One more step of `filter` over `s`: the next element is kept when it matches, and the kinds stay uniform. */
  lemma FilterStep(p: Elem -> bool, s: seq<Elem>, i: nat)
    requires Uniform(s) && i < |s|
    ensures FilterSeq(p, s[..i + 1]) == FilterSeq(p, s[..i]) + (if p(s[i]) then [s[i]] else [])
    ensures Uniform(FilterSeq(p, s[..i + 1]))
  {
    TakeSnoc(s, i);
    FilterSnoc(p, s[..i], s[i]);
    UniformPrefix(s, i + 1);
    FilterSeqUniform(p, s[..i + 1]);
  }

  /** `filter` keeps each matching element as often as it occurs and drops every other one. */
  lemma {:induction false} FilterSeqCount(p: Elem -> bool, s: seq<Elem>, x: Elem)
    ensures multiset(FilterSeq(p, s))[x] == if p(x) then multiset(s)[x] else 0
  {
    if s != [] {
      FilterSeqCount(p, s[..|s| - 1], x);
      SnocSplit(s);
    }
  }

  lemma FilterSeqMembers(p: Elem -> bool, s: seq<Elem>, x: Elem)
    ensures x in FilterSeq(p, s) <==> x in s && p(x)
  {
    FilterSeqCount(p, s, x);
    assert x in FilterSeq(p, s) <==> x in multiset(FilterSeq(p, s));
  }

  /** Filtering a sorted sequence leaves it sorted. */
  lemma {:induction false} FilterSeqSorted(p: Elem -> bool, s: seq<Elem>)
    requires Sorted(s)
    ensures Sorted(FilterSeq(p, s))
  {
    if s != [] {
      var init, last := s[..|s| - 1], s[|s| - 1];
      assert Sorted(init);
      FilterSeqSorted(p, init);
      if p(last) {
        forall e | e in FilterSeq(p, init) ensures Le(e, last) {
          FilterSeqMembers(p, init, e);
          SortedLastMax(s, e);
        }
        SortedSnoc(FilterSeq(p, init), last);
      }
    }
  }

  lemma FilterSeqUniform(p: Elem -> bool, s: seq<Elem>)
    requires Uniform(s)
    ensures Uniform(FilterSeq(p, s))
  {
    var f := FilterSeq(p, s);
    if f != [] {
      FilterSeqMembers(p, s, f[0]);
      forall x | x in f ensures KindOf(x) == KindOf(f[0]) {
        FilterSeqMembers(p, s, x);
      }
    }
  }
}
