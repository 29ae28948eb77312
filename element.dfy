/**
 * The values a sorted list may hold and the order it keeps them in.
 *
 * A list holds either integers or strings, never both: `Kind` is the tag the
 * list locks on its first insertion (the `type` field of the list), and `Elem`
 * is the tagged union `string|int` of the source. Because an `Elem` is always
 * one of the two kinds, the "neither string nor int" rejection of the source
 * has nothing left to reject.
 *
 * `Compare` is the spaceship operator `<=>` the list uses everywhere:
 * integers by value, strings lexicographically by character code (the
 * case-sensitive order, upper case before lower case). Comparing an integer
 * with a string never happens on insertion (the kind lock rejects it first);
 * the only way to reach it is `contains` with an argument of the other kind,
 * and for that case the model puts every integer before every string so that
 * `Compare` stays a total order.
 */
module Element {

  datatype Option<T> = None | Some(value: T)

  datatype Kind = IntKind | StrKind

  datatype Elem = IntE(i: int) | StrE(s: string)

  function KindOf(e: Elem): Kind {
    match e
    case IntE(_) => IntKind
    case StrE(_) => StrKind
  }

  /** Lexicographic three-way comparison of two strings. */
  function StrCompare(a: string, b: string): (r: int)
    ensures -1 <= r <= 1
    ensures r == 0 ==> |a| == |b|
  {
    if a == [] && b == [] then 0
    else if a == [] then -1
    else if b == [] then 1
    else if a[0] < b[0] then -1
    else if a[0] > b[0] then 1
    else StrCompare(a[1..], b[1..])
  }

  /** The three-way comparison `a <=> b`: negative, zero or positive. */
  function Compare(a: Elem, b: Elem): (r: int)
    ensures -1 <= r <= 1
    ensures KindOf(a) == IntKind && KindOf(b) == IntKind ==> (r < 0 <==> a.i < b.i) && (r == 0 <==> a.i == b.i)
  {
    match (a, b)
    case (IntE(x), IntE(y)) => if x < y then -1 else if x > y then 1 else 0
    case (StrE(x), StrE(y)) => StrCompare(x, y)
    case (IntE(_), StrE(_)) => -1
    case (StrE(_), IntE(_)) => 1
  }

  /** `a` may stand before `b` in a sorted list. */
  predicate Le(a: Elem, b: Elem) {
    Compare(a, b) <= 0
  }

  lemma {:induction false} StrCompareAntisym(a: string, b: string)
    ensures StrCompare(a, b) == -StrCompare(b, a)
    decreases |a|
  {
    if a != [] && b != [] && a[0] == b[0] {
      StrCompareAntisym(a[1..], b[1..]);
    }
  }

  lemma {:induction false} StrCompareZero(a: string, b: string)
    ensures StrCompare(a, b) == 0 <==> a == b
    decreases |a|
  {
    if a != [] && b != [] && a[0] == b[0] {
      StrCompareZero(a[1..], b[1..]);
      assert a == [a[0]] + a[1..] && b == [b[0]] + b[1..];
    }
  }

  lemma {:induction false} StrCompareTrans(a: string, b: string, c: string)
    requires StrCompare(a, b) <= 0 && StrCompare(b, c) <= 0
    ensures StrCompare(a, c) <= 0
    decreases |a|
  {
    if a != [] && b != [] && c != [] && a[0] == b[0] == c[0] {
      StrCompareTrans(a[1..], b[1..], c[1..]);
    }
  }

  /**
   * `a` comes before `b` in dictionary order: `a` is a proper prefix of `b`,
   * or the two agree up to a position where `a` has the smaller character.
   */
  predicate LexBefore(a: string, b: string) {
    exists k :: 0 <= k <= |a| && k <= |b| && a[..k] == b[..k] &&
      ((k == |a| && k < |b|) || (k < |a| && k < |b| && a[k] < b[k]))
  }

  /** The string order is dictionary order by character code. */
  lemma {:induction false} StrCompareLex(a: string, b: string)
    ensures StrCompare(a, b) < 0 <==> LexBefore(a, b)
    decreases |a|
  {
    if a == [] || b == [] || a[0] != b[0] {
      // Only the empty prefix is shared, so position 0 decides.
      forall k | 0 < k <= |a| && k <= |b|
        ensures a[..k] != b[..k]
      {
        assert a[..k][0] == a[0] && b[..k][0] == b[0];
      }
      assert a[..0] == b[..0];
    } else {
      StrCompareLex(a[1..], b[1..]);
      LexBeforeTail(a, b);
    }
  }

  /** Strings with the same first character are ordered as their tails are. */
  lemma LexBeforeTail(a: string, b: string)
    requires a != [] && b != [] && a[0] == b[0]
    ensures LexBefore(a, b) <==> LexBefore(a[1..], b[1..])
  {
    var a', b' := a[1..], b[1..];
    if LexBefore(a', b') {
      var k :| 0 <= k <= |a'| && k <= |b'| && a'[..k] == b'[..k] &&
        ((k == |a'| && k < |b'|) || (k < |a'| && k < |b'| && a'[k] < b'[k]));
      assert a[..k + 1] == [a[0]] + a'[..k] && b[..k + 1] == [b[0]] + b'[..k];
    }
    if LexBefore(a, b) {
      var k :| 0 <= k <= |a| && k <= |b| && a[..k] == b[..k] &&
        ((k == |a| && k < |b|) || (k < |a| && k < |b| && a[k] < b[k]));
      assert k > 0;
      assert a'[..k - 1] == a[..k][1..] && b'[..k - 1] == b[..k][1..];
    }
  }

  /** `<=>` is antisymmetric: swapping the operands flips the sign. */
  lemma CompareAntisym(a: Elem, b: Elem)
    ensures Compare(a, b) == -Compare(b, a)
  {
    if a.StrE? && b.StrE? {
      StrCompareAntisym(a.s, b.s);
    }
  }

  /** `<=>` returns zero exactly on equal values, so it agrees with `===`. */
  lemma CompareZero(a: Elem, b: Elem)
    ensures Compare(a, b) == 0 <==> a == b
  {
    if a.StrE? && b.StrE? {
      StrCompareZero(a.s, b.s);
    }
  }

  /** `Le` is transitive, so `Compare` is a total order. */
  lemma CompareTrans(a: Elem, b: Elem, c: Elem)
    requires Le(a, b) && Le(b, c)
    ensures Le(a, c)
  {
    if a.StrE? && b.StrE? && c.StrE? {
      StrCompareTrans(a.s, b.s, c.s);
    }
  }

  /** Case-sensitive order: "Banana" < "apple" < "cherry". */
  lemma CaseSensitiveOrder()
    ensures Compare(StrE("Banana"), StrE("apple")) < 0
    ensures Compare(StrE("apple"), StrE("cherry")) < 0
  {
  }
}
