/**
 * The text form of a list (`__toString`): the elements front to back,
 * integers in decimal and strings between double quotes (with no escaping),
 * joined by ", " and enclosed in square brackets, e.g. `[1, 2, 3]` or
 * `["bird", "cat", "dog"]`.
 *
 * PHP's `(string)` cast of an integer and `implode` are library calls; they
 * are written out here as `IntToDecimal` and `Implode`, and the decimal form
 * is shown to be readable back (`ParseIntToDecimal`).
 */
module Text {
  import opened Element

  /** The character of a decimal digit. */
  function Digit(d: nat): (c: char)
    requires d < 10
    ensures '0' <= c <= '9' && c as int - '0' as int == d
  {
    ('0' as int + d) as char
  }

  predicate IsDigits(s: string) {
    forall i :: 0 <= i < |s| ==> '0' <= s[i] <= '9'
  }

  /** The decimal form of a natural number: most significant digit first, no leading zeros. */
  function NatToDecimal(n: nat): (r: string)
    ensures |r| >= 1 && IsDigits(r)
    ensures r[0] == '0' <==> n == 0
    decreases n
  {
    if n < 10 then [Digit(n)] else NatToDecimal(n / 10) + [Digit(n % 10)]
  }

  /** An optionally negative run of decimal digits. */
  predicate IsDecimal(s: string) {
    if s != [] && s[0] == '-' then |s| >= 2 && IsDigits(s[1..]) else s != [] && IsDigits(s)
  }

  /** The decimal form of an integer, with a leading '-' when negative: the `(string)` cast. */
  function IntToDecimal(i: int): (r: string)
    ensures IsDecimal(r)
    ensures r[0] == '-' <==> i < 0
  {
    if i < 0 then
      assert ("-" + NatToDecimal(-i))[1..] == NatToDecimal(-i);
      "-" + NatToDecimal(-i)
    else NatToDecimal(i)
  }

  /** The number a string of decimal digits denotes. */
  function ParseNat(s: string): nat
    requires IsDigits(s)
  {
    if s == [] then 0 else 10 * ParseNat(s[..|s| - 1]) + (s[|s| - 1] as int - '0' as int)
  }

  /** The number an optionally negative decimal string denotes. */
  function ParseInt(s: string): int
    requires IsDecimal(s)
  {
    if s[0] == '-' then -(ParseNat(s[1..]) as int) else ParseNat(s)
  }

  /** Reading back the decimal form of `n` gives `n`. */
  lemma {:induction false} ParseNatToDecimal(n: nat)
    ensures ParseNat(NatToDecimal(n)) == n
    decreases n
  {
    if n >= 10 {
      var r := NatToDecimal(n / 10);
      ParseNatToDecimal(n / 10);
      assert (r + [Digit(n % 10)])[..|r|] == r;
    }
  }

  /** Reading back the decimal form of `i` gives `i`: the cast loses nothing. */
  lemma ParseIntToDecimal(i: int)
    ensures ParseInt(IntToDecimal(i)) == i
  {
    if i < 0 {
      ParseNatToDecimal(-i);
      assert ("-" + NatToDecimal(-i))[1..] == NatToDecimal(-i);
    } else {
      ParseNatToDecimal(i);
    }
  }

  /** One element as `__toString` shows it. */
  function Show(e: Elem): (r: string)
    ensures |r| >= 1
    ensures e.StrE? ==> |r| == |e.s| + 2 && r[0] == '"' && r[|r| - 1] == '"' && r[1..|r| - 1] == e.s
    ensures e.IntE? ==> r[0] != '"' && IsDecimal(r) && ParseInt(r) == e.i
  {
    match e
    case IntE(i) =>
      ParseIntToDecimal(i);
      IntToDecimal(i)
    case StrE(s) => "\"" + s + "\""
  }

  /** Every element shown, in order: the `array_map` of `__toString`. */
  function ShowAll(s: seq<Elem>): (r: seq<string>)
    ensures |r| == |s|
    ensures forall i :: 0 <= i < |s| ==> r[i] == Show(s[i])
  {
    if s == [] then [] else [Show(s[0])] + ShowAll(s[1..])
  }

  /** The parts with `sep` between each two neighbours: PHP's `implode`. */
  function Implode(sep: string, parts: seq<string>): (r: string)
    ensures parts == [] ==> r == ""
    ensures parts != [] ==> |r| >= |parts[0]| && r[..|parts[0]|] == parts[0]
  {
    if parts == [] then ""
    else if |parts| == 1 then parts[0]
    else parts[0] + sep + Implode(sep, parts[1..])
  }

  /** Imploding a concatenation is imploding each side and joining the two with `sep`. */
  lemma {:induction false} ImplodeAppend(sep: string, a: seq<string>, b: seq<string>)
    requires a != [] && b != []
    ensures Implode(sep, a + b) == Implode(sep, a) + sep + Implode(sep, b)
    decreases |a|
  {
    if |a| == 1 {
      assert (a + b)[0] == a[0] && (a + b)[1..] == b;
    } else {
      ImplodeAppend(sep, a[1..], b);
      assert (a + b)[0] == a[0] && (a + b)[1..] == a[1..] + b;
    }
  }

  /** The text of a list holding `s`: `__toString`. */
  function Render(s: seq<Elem>): (r: string)
    ensures |r| >= 2 && r[0] == '[' && r[|r| - 1] == ']'
    ensures r == "[]" <==> s == []
  {
    "[" + Implode(", ", ShowAll(s)) + "]"
  }

  lemma ShowAllSnoc(s: seq<Elem>, e: Elem)
    ensures ShowAll(s + [e]) == ShowAll(s) + [Show(e)]
  {
    var l, r := ShowAll(s + [e]), ShowAll(s) + [Show(e)];
    assert |l| == |r|;
    forall i | 0 <= i < |l| ensures l[i] == r[i] {
      if i < |s| {
        assert (s + [e])[i] == s[i];
      }
    }
  }

  lemma StrAssoc(a: string, b: string, c: string)
    ensures a + (b + c) == (a + b) + c
  {
  }

  /** Appending an element adds ", " and its text before the closing bracket. */
  lemma RenderSnoc(s: seq<Elem>, e: Elem)
    requires s != []
    ensures Render(s + [e]) == Render(s)[..|Render(s)| - 1] + ", " + Show(e) + "]"
  {
    var parts := ShowAll(s);
    var body := Implode(", ", parts);
    ShowAllSnoc(s, e);
    ImplodeAppend(", ", parts, [Show(e)]);
    assert Implode(", ", ShowAll(s + [e])) == body + ", " + Show(e);
    StrAssoc("[", body + ", ", Show(e));
    StrAssoc("[", body, ", ");
    var whole := "[" + body;
    assert Render(s) == whole + "]";
    assert (whole + "]")[..|whole|] == whole;
  }
}
