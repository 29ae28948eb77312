/**
 * Concrete runs of the list's operations on small inputs, stated over the
 * abstract sequences: the orders, duplicates and texts a user of the list
 * sees.
 */
module Scenarios {
  import opened Element
  import opened SortedSeq
  import opened Text

  /** Adding 5, 2, 8 and 1 to an empty list leaves 1, 2, 5, 8. */
  lemma AddKeepsOrder()
    ensures BuildSorted([IntE(5), IntE(2), IntE(8), IntE(1)]) == [IntE(1), IntE(2), IntE(5), IntE(8)]
  {
    BuildSortedSnoc([], IntE(5));
    assert [] + [IntE(5)] == [IntE(5)];
    BuildSortedSnoc([IntE(5)], IntE(2));
    assert [IntE(5)] + [IntE(2)] == [IntE(5), IntE(2)];
    assert Insert([IntE(5)], IntE(2)) == [IntE(2), IntE(5)];
    BuildSortedSnoc([IntE(5), IntE(2)], IntE(8));
    assert [IntE(5), IntE(2)] + [IntE(8)] == [IntE(5), IntE(2), IntE(8)];
    assert Insert([IntE(2), IntE(5)], IntE(8)) == [IntE(2), IntE(5), IntE(8)];
    BuildSortedSnoc([IntE(5), IntE(2), IntE(8)], IntE(1));
    assert [IntE(5), IntE(2), IntE(8)] + [IntE(1)] == [IntE(5), IntE(2), IntE(8), IntE(1)];
  }

  /** Duplicates are kept: adding 2 twice to 1, 2, 3 gives 1, 2, 2, 2, 3. */
  lemma AddKeepsDuplicates()
    ensures Insert(Insert([IntE(1), IntE(2), IntE(3)], IntE(2)), IntE(2)) == [IntE(1), IntE(2), IntE(2), IntE(2), IntE(3)]
  {
  }

  /** Only the first of several equal values is removed. */
  lemma RemoveOnlyFirst()
    ensures Delete([IntE(1), IntE(2), IntE(2), IntE(2), IntE(3)], IntE(2)) == [IntE(1), IntE(2), IntE(2), IntE(3)]
    ensures Delete([IntE(1), IntE(2), IntE(3)], IntE(10)) == [IntE(1), IntE(2), IntE(3)]
  {
  }

  /** Merging keeps the duplicates of both sides: 1, 2, 3 with 2, 3, 4 gives 1, 2, 2, 3, 3, 4. */
  lemma MergeKeepsDuplicates()
    ensures MergeSorted([IntE(1), IntE(2), IntE(3)], [IntE(2), IntE(3), IntE(4)])
         == [IntE(1), IntE(2), IntE(2), IntE(3), IntE(3), IntE(4)]
  {
  }

  /** Strings are kept in lexicographic order. */
  lemma StringsSorted()
    ensures BuildSorted([StrE("dog"), StrE("cat"), StrE("bird")]) == [StrE("bird"), StrE("cat"), StrE("dog")]
  {
    BuildSortedSnoc([], StrE("dog"));
    assert [] + [StrE("dog")] == [StrE("dog")];
    BuildSortedSnoc([StrE("dog")], StrE("cat"));
    assert [StrE("dog")] + [StrE("cat")] == [StrE("dog"), StrE("cat")];
    assert Compare(StrE("cat"), StrE("dog")) < 0;
    assert Insert([StrE("dog")], StrE("cat")) == [StrE("cat"), StrE("dog")];
    BuildSortedSnoc([StrE("dog"), StrE("cat")], StrE("bird"));
    assert [StrE("dog"), StrE("cat")] + [StrE("bird")] == [StrE("dog"), StrE("cat"), StrE("bird")];
    assert Compare(StrE("bird"), StrE("cat")) < 0;
  }

  /** An empty list shows as "[]". */
  lemma EmptyToString()
    ensures Render([]) == "[]"
  {
  }

  /** A list of integers shows its elements in decimal. */
  lemma IntsToString()
    ensures Render([IntE(1), IntE(2), IntE(3)]) == "[1, 2, 3]"
  {
    assert Show(IntE(1)) == "1" && Show(IntE(2)) == "2" && Show(IntE(3)) == "3";
    var s := [IntE(1), IntE(2), IntE(3)];
    assert ShowAll(s) == ["1", "2", "3"];
    assert Implode(", ", ["3"]) == "3";
    assert Implode(", ", ["2", "3"]) == "2, 3";
    assert Implode(", ", ["1", "2", "3"]) == "1, 2, 3";
  }

  lemma ShowAnimals()
    ensures ShowAll([StrE("bird"), StrE("cat"), StrE("dog")]) == ["\"bird\"", "\"cat\"", "\"dog\""]
  {
    assert Show(StrE("bird")) == "\"bird\"";
    assert Show(StrE("cat")) == "\"cat\"";
    assert Show(StrE("dog")) == "\"dog\"";
  }

  lemma ImplodeAnimals()
    ensures Implode(", ", ["\"bird\"", "\"cat\"", "\"dog\""]) == "\"bird\", \"cat\", \"dog\""
  {
    assert Implode(", ", ["\"dog\""]) == "\"dog\"";
    assert Implode(", ", ["\"cat\"", "\"dog\""]) == "\"cat\", \"dog\"";
  }

  /** A list of strings shows each element in double quotes. */
  lemma StringsToString()
    ensures Render([StrE("bird"), StrE("cat"), StrE("dog")]) == "[\"bird\", \"cat\", \"dog\"]"
  {
    ShowAnimals();
    ImplodeAnimals();
  }
}
