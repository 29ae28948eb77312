/**
 * The sorted linked list: a container whose chain of cells is kept in
 * ascending order under insertion and removal, holding values of one kind,
 * locked on the first insertion and unlocked only by `Clear`.
 *
 * The three mutable fields of the source are the fields of the class: the
 * first cell `head`, the element count `size` and the locked kind `kind`.
 * `Contents()` reads the chain front to back; `Valid()` is the invariant every
 * public operation keeps: the contents are sorted, `size` counts them, and
 * while a kind is locked every element has it.
 *
 * Exceptions are results: `TypeMismatch` for InvalidArgumentException,
 * `IndexOutOfRange` for OutOfRangeException and `EmptyContainer` for the
 * RuntimeException "List is empty".
 */
module SortedList {
  import opened Element
  import opened Node
  import opened SortedSeq
  import opened Text

  datatype Error = TypeMismatch | IndexOutOfRange | EmptyContainer

  datatype Result<T> = Ok(value: T) | Err(error: Error)

  /** The outcome of a check that either passes or raises. */
  datatype Outcome = Pass | Fail(error: Error)

  /**
   * The loop invariant of the walk in `add`: the values collected so far,
   * followed by what the rest of the walk will append, make up the answer.
   */
  ghost predicate InsertWalk(chain: Chain, v: Elem, values: seq<Elem>, inserted: bool, current: Chain) {
    values + (if inserted then Elems(current) else Insert(Elems(current), v)) == Insert(Elems(chain), v)
  }

  /** One step of the walk in `add` keeps its invariant. */
  lemma InsertWalkStep(chain: Chain, v: Elem, values: seq<Elem>, inserted: bool, current: Chain)
    requires current.Cons? && InsertWalk(chain, v, values, inserted, current)
    ensures !inserted && Compare(v, current.value) <= 0 ==> InsertWalk(chain, v, values + [v] + [current.value], true, current.next)
    ensures !(!inserted && Compare(v, current.value) <= 0) ==> InsertWalk(chain, v, values + [current.value], inserted, current.next)
  {
    var rest := Elems(current.next);
    ElemsCons(current);
    if !inserted && Compare(v, current.value) <= 0 {
      AppendAssoc(values, [v], [current.value] + rest);
      AppendAssoc(values + [v], [current.value], rest);
    } else if !inserted {
      AppendAssoc(values, [current.value], Insert(rest, v));
    } else {
      AppendAssoc(values, [current.value], rest);
    }
  }

  /**
   * The loop invariant of the walk in `remove`: `seen` is what was passed,
   * `removed` says whether `v` was among it, and the values kept so far,
   * followed by what the rest of the walk will keep, make up the answer.
   */
  ghost predicate DeleteWalk(chain: Chain, v: Elem, values: seq<Elem>, removed: bool, seen: seq<Elem>, current: Chain) {
    && seen + Elems(current) == Elems(chain)
    && (removed <==> v in seen)
    && values + (if removed then Elems(current) else Delete(Elems(current), v)) == Delete(Elems(chain), v)
  }

  /** One step of the walk in `remove` keeps its invariant. */
  lemma DeleteWalkStep(chain: Chain, v: Elem, values: seq<Elem>, removed: bool, seen: seq<Elem>, current: Chain)
    requires current.Cons? && DeleteWalk(chain, v, values, removed, seen, current)
    ensures !removed && current.value == v ==> DeleteWalk(chain, v, values, true, seen + [current.value], current.next)
    ensures !(!removed && current.value == v) ==> DeleteWalk(chain, v, values + [current.value], removed, seen + [current.value], current.next)
  {
    var rest := Elems(current.next);
    ElemsCons(current);
    AppendAssoc(seen, [current.value], rest);
    if !removed && current.value == v {
    } else if !removed {
      AppendAssoc(values, [current.value], Delete(rest, v));
    } else {
      AppendAssoc(values, [current.value], rest);
    }
  }

  class SortedLinkedList {
    var head: Chain
    var size: int
    var kind: Option<Kind>

    /** The values of the list, front to back. */
    function Contents(): seq<Elem>
      reads this
    {
      Elems(head)
    }

    ghost predicate Valid()
      reads this
    {
      && Sorted(Contents())
      && size == |Contents()|
      && (kind.Some? ==> OfKind(Contents(), kind.value))
      && (kind.None? ==> head == Nil)
    }

    /** The state of a fresh list after `items` were added to it in order. */
    ghost predicate Built(items: seq<Elem>)
      reads this
    {
      && Valid()
      && Contents() == BuildSorted(items)
      && Uniform(items)
      && kind == FirstKind(items)
    }

    /** An empty, unlocked list. */
    constructor ()
      ensures Valid() && Contents() == [] && kind == None
    {
      head := Nil;
      size := 0;
      kind := None;
    }

    /**
     * The kind check of `add`: an unlocked list locks on the kind of `v`;
     * a locked list rejects any other kind and changes nothing.
     */
    method ValidateType(v: Elem) returns (r: Outcome)
      modifies this`kind
      ensures r.Pass? <==> Admits(old(kind), v)
      ensures r.Fail? ==> r.error == TypeMismatch && kind == old(kind)
      ensures r.Pass? ==> kind == Some(KindOf(v))
    {
      var valueType := KindOf(v);
      if kind.None? {
        kind := Some(valueType);
      } else if valueType != kind.value {
        return Fail(TypeMismatch);
      }
      return Pass;
    }

    /** Replaces the chain by one holding `values` in order, built from the last value back. */
    method RebuildFromArray(values: seq<Elem>)
      modifies this`head
      ensures head == FromSeq(values) && Contents() == values
    {
      head := Nil;
      if |values| == 0 {
        return;
      }
      var i := |values| - 1;
      while i >= 0
        invariant -1 <= i < |values|
        invariant head == FromSeq(values[i + 1..])
      {
        assert values[i..][1..] == values[i + 1..];
        head := Cons(values[i], head);
        i := i - 1;
      }
      assert values[0..] == values;
    }

    /**
     * Adds `v` in front of the first element not below it and returns the
     * list itself; a value of the other kind is rejected before anything
     * changes.
     */
    method Add(v: Elem) returns (r: Result<SortedLinkedList>)
      requires Valid()
      modifies this
      ensures Valid()
      ensures r.Ok? <==> Admits(old(kind), v)
      ensures r.Ok? ==> r.value == this && Contents() == Insert(old(Contents()), v) && kind == Some(KindOf(v))
      ensures r.Err? ==> r.error == TypeMismatch && head == old(head) && size == old(size) && kind == old(kind)
    {
      ghost var s := Contents();
      ghost var lock := kind;
      var check := ValidateType(v);
      if check.Fail? {
        return Err(check.error);
      }
      InsertSorted(s, v);
      if lock.Some? {
        InsertOfKind(s, v, lock.value);
      }
      if head.Nil? || Compare(v, head.value) <= 0 {
        assert Insert(s, v) == [v] + s;
        head := Cons(v, head);
        size := size + 1;
        return Ok(this);
      }

      var values := ValuesWithInserted(head, v);
      RebuildFromArray(values);
      size := size + 1;
      return Ok(this);
    }

    /**
     * The walk of `add` past the head: the values of `chain` front to back,
     * with `v` placed before the first one not below it, or at the end.
     */
    static method ValuesWithInserted(chain: Chain, v: Elem) returns (values: seq<Elem>)
      ensures values == Insert(Elems(chain), v)
    {
      values := [];
      var inserted := false;
      var current := chain;
      while current.Cons?
        invariant InsertWalk(chain, v, values, inserted, current)
        decreases current
      {
        InsertWalkStep(chain, v, values, inserted, current);
        if !inserted && Compare(v, current.value) <= 0 {
          values := values + [v];
          inserted := true;
        }
        values := values + [current.value];
        current := current.next;
      }
      if !inserted {
        values := values + [v];
      }
    }

    /**
     * The walk of `remove` past the head: the values of `chain` front to
     * back with the first one equal to `v` left out, and whether there was one.
     */
    static method ValuesWithoutFirst(chain: Chain, v: Elem) returns (values: seq<Elem>, removed: bool)
      ensures removed <==> v in Elems(chain)
      ensures values == Delete(Elems(chain), v)
    {
      values := [];
      removed := false;
      var current := chain;
      ghost var seen: seq<Elem> := [];
      while current.Cons?
        invariant DeleteWalk(chain, v, values, removed, seen, current)
        decreases current
      {
        DeleteWalkStep(chain, v, values, removed, seen, current);
        if !removed && current.value == v {
          removed := true;
        } else {
          values := values + [current.value];
        }
        seen := seen + [current.value];
        current := current.next;
      }
    }

    /**
     * Removes the first element equal to `v` (`===`) and reports whether
     * there was one; the kind lock stays as it was, even when the list
     * becomes empty.
     */
    method Remove(v: Elem) returns (r: bool)
      requires Valid()
      modifies this
      ensures Valid()
      ensures r <==> v in old(Contents())
      ensures Contents() == Delete(old(Contents()), v)
      ensures size == if r then old(size) - 1 else old(size)
      ensures !r ==> head == old(head)
      ensures kind == old(kind)
    {
      if head.Nil? {
        return false;
      }
      ghost var s := Contents();
      DeleteSorted(s, v);
      if kind.Some? {
        DeleteOfKind(s, v, kind.value);
      }
      ElemsCons(head);
      if head.value == v {
        head := head.next;
        size := size - 1;
        return true;
      }

      var values, removed := ValuesWithoutFirst(head, v);
      DeleteLength(s, v);
      if removed {
        RebuildFromArray(values);
        size := size - 1;
        return true;
      }
      return false;
    }

    /**
     * Whether some element compares equal to `v`. The scan stops at the
     * first element above `v`, which is sound because the list is sorted.
     */
    method Contains(v: Elem) returns (r: bool)
      requires Valid()
      ensures r <==> v in Contents()
    {
      ghost var s := Contents();
      var current := head;
      ghost var i := 0;
      while current.Cons?
        invariant 0 <= i <= |s|
        invariant Elems(current) == s[i..]
        invariant v !in s[..i]
        decreases |s| - i
      {
        assert current.value == s[i];
        var cmp := Compare(current.value, v);
        CompareZero(current.value, v);
        if cmp == 0 {
          return true;
        }
        if cmp > 0 {
          SortedPast(s, i, v);
          assert s == s[..i] + s[i..];
          return false;
        }
        assert s[..i + 1] == s[..i] + [current.value];
        current := current.next;
        i := i + 1;
      }
      assert s[..i] == s;
      return false;
    }

    /** The element at position `index`, counting from 0. */
    method Get(index: int) returns (r: Result<Elem>)
      requires Valid()
      ensures r.Err? <==> index < 0 || index >= |Contents()|
      ensures r.Err? ==> r.error == IndexOutOfRange
      ensures r.Ok? ==> r.value == Contents()[index]
    {
      if index < 0 || index >= size {
        return Err(IndexOutOfRange);
      }
      var current := head;
      for i := 0 to index
        invariant current == Drop(head, i)
      {
        DropStep(head, i);
        current := current.next;
      }
      DropElems(head, index);
      return Ok(current.value);
    }

    /** The first element, which is the minimum. */
    method First() returns (r: Result<Elem>)
      requires Valid()
      ensures r.Err? <==> Contents() == []
      ensures r.Err? ==> r.error == EmptyContainer
      ensures r.Ok? ==> r.value == Contents()[0]
      ensures r.Ok? ==> forall e :: e in Contents() ==> Le(r.value, e)
    {
      if head.Nil? {
        return Err(EmptyContainer);
      }
      forall e | e in Contents() ensures Le(head.value, e) {
        SortedFirstMin(Contents(), e);
      }
      return Ok(head.value);
    }

    /** The last element, which is the maximum; found by walking the whole chain. */
    method Last() returns (r: Result<Elem>)
      requires Valid()
      ensures r.Err? <==> Contents() == []
      ensures r.Err? ==> r.error == EmptyContainer
      ensures r.Ok? ==> r.value == Contents()[|Contents()| - 1]
      ensures r.Ok? ==> forall e :: e in Contents() ==> Le(e, r.value)
    {
      if head.Nil? {
        return Err(EmptyContainer);
      }
      ghost var s := Contents();
      var current := head;
      ghost var i := 0;
      while current.next.Cons?
        invariant current.Cons?
        invariant 0 <= i < |s|
        invariant Elems(current) == s[i..]
        decreases |s| - i
      {
        current := current.next;
        i := i + 1;
      }
      assert i == |s| - 1;
      forall e | e in s ensures Le(e, current.value) {
        SortedLastMax(s, e);
      }
      return Ok(current.value);
    }

    /** Removes and returns the first (minimum) element; the kind lock stays. */
    method RemoveFirst() returns (r: Result<Elem>)
      requires Valid()
      modifies this
      ensures Valid()
      ensures r.Err? <==> old(Contents()) == []
      ensures r.Err? ==> r.error == EmptyContainer && head == old(head) && size == old(size)
      ensures r.Ok? ==> r.value == old(Contents())[0] && Contents() == old(Contents())[1..]
      ensures r.Ok? ==> forall e :: e in old(Contents()) ==> Le(r.value, e)
      ensures kind == old(kind)
    {
      if head.Nil? {
        return Err(EmptyContainer);
      }
      forall e | e in Contents() ensures Le(head.value, e) {
        SortedFirstMin(Contents(), e);
      }
      assert Contents()[1..] == Elems(head.next);
      var value := head.value;
      head := head.next;
      size := size - 1;
      return Ok(value);
    }

    /** Empties the list and unlocks its kind; returns the list itself. */
    method Clear() returns (r: SortedLinkedList)
      modifies this
      ensures Valid()
      ensures r == this && Contents() == [] && size == 0 && kind == None
    {
      head := Nil;
      size := 0;
      kind := None;
      return this;
    }

    function IsEmpty(): (r: bool)
      reads this
      requires Valid()
      ensures r <==> Contents() == []
      ensures r <==> Count() == 0
    {
      head.Nil?
    }

    function Count(): (n: int)
      reads this
      requires Valid()
      ensures n == |Contents()|
    {
      size
    }

    /** `__toString`: the text of the elements front to back, e.g. `[1, 2, 3]`. */
    function ToString(): (r: string)
      reads this
      ensures |r| >= 2 && r[0] == '[' && r[|r| - 1] == ']'
      ensures r == "[]" <==> Contents() == []
    {
      Render(Contents())
    }

    /** The elements front to back, as a fresh sequence. */
    method ToArray() returns (r: seq<Elem>)
      ensures r == Contents()
    {
      r := [];
      var current := head;
      while current.Cons?
        invariant r + Elems(current) == Contents()
        decreases |Elems(current)|
      {
        assert Elems(current) == [current.value] + Elems(current.next);
        r := r + [current.value];
        current := current.next;
      }
    }

    /**
     * Adds `items` one at a time, as the `foreach` loops of the constructor
     * and of `merge` do, and stops at the first one rejected; `done` are the
     * values this fresh list was fed before.
     */
    method AddAll(ghost done: seq<Elem>, items: seq<Elem>) returns (r: Outcome)
      requires Built(done)
      modifies this
      ensures r.Pass? <==> Uniform(done + items)
      ensures r.Fail? ==> r.error == TypeMismatch
      ensures r.Pass? ==> Built(done + items)
    {
      assert done + items[..0] == done;
      for i := 0 to |items|
        invariant Built(done + items[..i])
      {
        ghost var before := done + items[..i];
        TakeSnoc(items, i);
        AppendAssoc(done, items[..i], [items[i]]);
        assert done + items[..i + 1] == before + [items[i]];
        BuildStep(before, items[i]);
        var added := Add(items[i]);
        if added.Err? {
          if Uniform(done + items) {
            TakeAppend(done, items, i + 1);
            UniformPrefix(done + items, |done| + i + 1);
          }
          return Fail(added.error);
        }
      }
      TakeAll(items);
      return Pass;
    }

    /**
     * `new SortedLinkedList($items)` and `fromArray($items)`: a fresh list
     * with every item added in order; it fails as soon as an item's kind
     * differs from the first one's.
     */
    static method FromArray(items: seq<Elem>) returns (r: Result<SortedLinkedList>)
      ensures r.Ok? <==> Uniform(items)
      ensures r.Err? ==> r.error == TypeMismatch
      ensures r.Ok? ==> fresh(r.value) && r.value.Built(items)
    {
      var list := new SortedLinkedList();
      var added := list.AddAll([], items);
      assert [] + items == items;
      if added.Fail? {
        return Err(added.error);
      }
      return Ok(list);
    }

    /**
     * A fresh list holding every element of this list and of `other`,
     * duplicates kept; neither input changes. It fails when the two lists
     * hold different kinds.
     */
    method Merge(other: SortedLinkedList) returns (r: Result<SortedLinkedList>)
      requires Valid() && other.Valid()
      ensures r.Ok? <==> Uniform(Contents() + other.Contents())
      ensures r.Err? ==> r.error == TypeMismatch
      ensures r.Ok? ==> fresh(r.value) && r.value.Valid()
      ensures r.Ok? ==> r.value.Contents() == MergeSorted(Contents(), other.Contents())
      ensures r.Ok? ==> r.value.kind == FirstKind(Contents() + other.Contents())
    {
      var result := new SortedLinkedList();
      var mine := ToArray();
      assert Uniform(mine) && [] + mine == mine;
      var _ := result.AddAll([], mine);
      var theirs := other.ToArray();
      var added := result.AddAll(mine, theirs);
      if added.Fail? {
        return Err(added.error);
      }
      BuildSortedIsMerge(mine, theirs);
      return Ok(result);
    }

    /** A fresh list holding, in order, the elements that satisfy `p`; this list does not change. */
    method Filter(p: Elem -> bool) returns (r: SortedLinkedList)
      requires Valid()
      ensures fresh(r) && r.Valid()
      ensures r.Contents() == FilterSeq(p, Contents())
      ensures r.kind == FirstKind(FilterSeq(p, Contents()))
    {
      var result := new SortedLinkedList();
      var mine := ToArray();
      assert Uniform(mine) && mine[..0] == [];
      for i := 0 to |mine|
        invariant fresh(result)
        invariant result.Built(FilterSeq(p, mine[..i]))
      {
        ghost var kept := FilterSeq(p, mine[..i]);
        FilterStep(p, mine, i);
        if p(mine[i]) {
          assert FilterSeq(p, mine[..i + 1]) == kept + [mine[i]];
          BuildStep(kept, mine[i]);
          var _ := result.Add(mine[i]);
        } else {
          assert FilterSeq(p, mine[..i + 1]) == kept;
        }
      }
      TakeAll(mine);
      FilterSeqSorted(p, mine);
      BuildSortedOfSorted(FilterSeq(p, mine));
      return result;
    }
  }

  /**
   * The kind lock over the life of a list: once an integer was added a
   * string is refused, still refused after that integer is removed again,
   * and accepted after `Clear`.
   */
  method KindLockLifecycle() returns (afterAdd: Result<SortedLinkedList>, afterRemove: Result<SortedLinkedList>, afterClear: Result<SortedLinkedList>)
    ensures afterAdd.Err? && afterAdd.error == TypeMismatch
    ensures afterRemove.Err? && afterRemove.error == TypeMismatch
    ensures afterClear.Ok? && afterClear.value.Contents() == [StrE("a")]
  {
    var list := new SortedLinkedList();
    var _ := list.Add(IntE(1));
    afterAdd := list.Add(StrE("a"));
    var removed := list.Remove(IntE(1));
    assert list.Contents() == [];
    afterRemove := list.Add(StrE("a"));
    var _ := list.Clear();
    afterClear := list.Add(StrE("a"));
  }
}
