/**
 * The immutable cell the list is built from.
 *
 * A `Node` of the source is a readonly pair of a value and an optional next
 * node. Here a chain of such cells is a datatype value: `Cons(value, next)` is
 * a node and `Nil` is the absent node (`null`). Being a value, a cell cannot be
 * changed after it is built, so updating a list means building new cells, and
 * `next` must exist before the cell that points to it: every chain is finite
 * and acyclic (see `ReachesEnd`).
 */
module Node {
  import opened Element

  /** `next` defaults to the absent node, so `Cons(v)` is a one-element chain. */
  datatype Chain = Nil | Cons(value: Elem, next: Chain := Nil)

  /** The values met when following `next` from `c`, front to back. */
  function Elems(c: Chain): seq<Elem> {
    match c
    case Nil => []
    case Cons(v, n) => [v] + Elems(n)
  }

  /**
   * The chain holding `values` in order: the chain that the source's
   * `rebuildFromArray` builds by prepending cells from the last value back
   * to the first.
   */
  function FromSeq(values: seq<Elem>): (c: Chain)
    ensures Elems(c) == values
  {
    if values == [] then Nil
    else
      assert values == [values[0]] + values[1..];
      Cons(values[0], FromSeq(values[1..]))
  }

  /** The cell reached after following `next` `k` times (the absent node once past the end). */
  function Drop(c: Chain, k: nat): Chain {
    if k == 0 || c.Nil? then c else Drop(c.next, k - 1)
  }

  /** A cell's values are its own value followed by those of the cells after it. */
  lemma ElemsCons(c: Chain)
    requires c.Cons?
    ensures Elems(c) == [c.value] + Elems(c.next)
  {
  }

  /** A chain is determined by its values: rebuilding it from them gives it back. */
  lemma {:induction false} FromSeqElems(c: Chain)
    ensures FromSeq(Elems(c)) == c
  {
    if c.Cons? {
      FromSeqElems(c.next);
      assert Elems(c)[1..] == Elems(c.next);
    }
  }

  /** Following `next` `k` times drops the first `k` values. */
  lemma {:induction false} DropElems(c: Chain, k: nat)
    requires k <= |Elems(c)|
    ensures Elems(Drop(c, k)) == Elems(c)[k..]
  {
    if k > 0 && c.Cons? {
      DropElems(c.next, k - 1);
      assert Elems(c)[k..] == Elems(c.next)[k - 1..];
    }
  }

  /** Before the end, one more step follows the `next` of the cell reached so far. */
  lemma {:induction false} DropStep(c: Chain, k: nat)
    requires k < |Elems(c)|
    ensures Drop(c, k).Cons? && Drop(c, k + 1) == Drop(c, k).next
  {
    if k > 0 {
      DropStep(c.next, k - 1);
    }
  }

  /** Every chain is finite and acyclic: following `next` once per value ends at the absent node. */
  lemma {:induction false} ReachesEnd(c: Chain)
    ensures Drop(c, |Elems(c)|) == Nil
  {
    if c.Cons? {
      ReachesEnd(c.next);
    }
  }

  /** A node built without a successor holds exactly its one value. */
  lemma SingleNode(v: Elem)
    ensures Cons(v).next == Nil && Elems(Cons(v)) == [v]
  {
  }
}
